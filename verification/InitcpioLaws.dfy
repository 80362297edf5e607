/** Object and file agree: what the initcpio object holds is what its file says,
    after every call of every run. */
module InitcpioLaws {
  import opened Options
  import opened Text
  import opened Initcpio

  function LinesOf(content: string): seq<string> {
    Pieces(content, '\n')
  }

  /** Every list that the file has a line for satisfies Encodable. */
  ghost predicate AllEncodable(lines: seq<string>, l: Lists) {
    forall k: Key :: HasKey(lines, k) ==> Encodable(l.Get(k))
  }

  ghost predicate NoNewlines(lines: seq<string>, l: Lists) {
    forall k: Key :: HasKey(lines, k) ==> FreeOf(l.Get(k), '\n')
  }

  // ----- the lines of a written file -----

  lemma RenderFreeOfNewline(k: Key, items: seq<string>)
    requires FreeOf(items, '\n')
    ensures '\n' !in Render(k, items)
  {
    KeyNameIsPlain(k);
    JoinedFreeOf(items, ' ', '\n');
  }

  lemma LinesOfWritten(content: string, l: Lists)
    requires content != "" && NoNewlines(LinesOf(content), l)
    ensures LinesOf(Write(content, l)) == WriteLines(LinesOf(content), l)
  {
    hide Render, KeyOf, Pieces, Joined;
    var lines := LinesOf(content);
    var written := WriteLines(lines, l);
    PiecesAreFree(content, '\n');
    forall i | 0 <= i < |written| ensures '\n' !in written[i] {
      match KeyOf(lines[i])
      case Some(k) =>
        assert HasKey(lines, k);
        RenderFreeOfNewline(k, l.Get(k));
      case None =>
    }
    PiecesOfJoined(written, '\n');
  }

  lemma KeyOfWritten(line: string, l: Lists)
    ensures KeyOf(WriteLine(line, l)) == KeyOf(line)
  {
    match KeyOf(line)
    case Some(k) => BracketsOfRender(k, l.Get(k));
    case None =>
  }

  lemma KeysOfWritten(lines: seq<string>, l: Lists, k: Key)
    ensures HasKey(WriteLines(lines, l), k) <==> HasKey(lines, k)
  {
    hide WriteLine, KeyOf;
    var written := WriteLines(lines, l);
    forall i | 0 <= i < |lines| ensures KeyOf(written[i]) == KeyOf(lines[i]) {
      KeyOfWritten(lines[i], l);
    }
    if HasKey(lines, k) {
      var i :| 0 <= i < |lines| && KeyOf(lines[i]) == Some(k);
      assert KeyOf(written[i]) == Some(k);
    }
  }

  lemma {:induction false} ParseOfWritten(lines: seq<string>, l: Lists, k: Key, before: seq<string>)
    ensures ParseKey(k, WriteLines(lines, l), before) ==
            if HasKey(lines, k) then ParseLine(Render(k, l.Get(k))) else before
  {
    hide WriteLine, KeyOf, ParseLine, Render, ParseKey;
    var written := WriteLines(lines, l);
    KeysOfWritten(lines, l, k);
    ParseKeyFindsLast(k, written, before);
    if HasKey(lines, k) {
      var i :| 0 <= i < |written| && KeyOf(written[i]) == Some(k)
               && ParseKey(k, written, before) == ParseLine(written[i]);
      KeyOfWritten(lines[i], l);
      WriteLineOfKey(lines[i], l, k);
    }
  }

  lemma WriteLineOfKey(line: string, l: Lists, k: Key)
    requires KeyOf(line) == Some(k)
    ensures WriteLine(line, l) == Render(k, l.Get(k))
  {
  }

  lemma {:induction false} PiecesHead(a: string, b: string, d: char)
    requires d !in a
    ensures Pieces(a + b, d)[0] == a + Pieces(b, d)[0]
  {
    if a == [] {
      assert a + b == b;
    } else {
      assert (a + b)[1..] == a[1..] + b;
      PiecesHead(a[1..], b, d);
    }
  }

  lemma HasKeyConcat(a: seq<string>, b: seq<string>, k: Key)
    ensures HasKey(a + b, k) <==> HasKey(a, k) || HasKey(b, k)
  {
    hide KeyOf;
    if HasKey(a, k) {
      var i :| 0 <= i < |a| && KeyOf(a[i]) == Some(k);
      assert (a + b)[i] == a[i];
    }
    if HasKey(b, k) {
      var i :| 0 <= i < |b| && KeyOf(b[i]) == Some(k);
      assert (a + b)[|a| + i] == b[i];
    }
  }

  lemma WrittenLineKeepsKey(line: string, l: Lists, k: Key)
    requires KeyOf(line) == Some(k)
    ensures HasKey(LinesOf(WriteLine(line, l)), k)
  {
    hide KeyOf, Pieces;
    WriteLineOfKey(line, l, k);
    RenderKeepsKey(k, l.Get(k));
    assert KeyOf(LinesOf(WriteLine(line, l))[0]) == Some(k);
  }

  lemma WriteLinesCons(line: string, lines: seq<string>, l: Lists)
    ensures WriteLines([line] + lines, l) == [WriteLine(line, l)] + WriteLines(lines, l)
  {
    hide WriteLine;
  }

  lemma {:induction false} LinesOfJoinedCons(line: string, lines: seq<string>)
    ensures LinesOf(Joined([line] + lines, '\n')) ==
            if lines == [] then LinesOf(line) else LinesOf(line) + LinesOf(Joined(lines, '\n'))
  {
    hide Pieces, Joined;
    JoinedCons(line, lines, '\n');
    if lines != [] {
      PiecesConcat(line, Joined(lines, '\n'), '\n');
    }
  }

  /** Whatever the lists contain, a line with a key keeps its key in the written file. */
  lemma {:induction false} KeysSurvive(lines: seq<string>, l: Lists, k: Key)
    requires HasKey(lines, k)
    ensures HasKey(LinesOf(Joined(WriteLines(lines, l), '\n')), k)
    decreases |lines|
  {
    hide HasKey, WriteLines, KeyOf, Pieces, Joined, LinesOf;
    HasKeyNonEmpty(lines, k);
    var line, rest := lines[0], lines[1..];
    assert lines == [line] + rest;
    KeysSurviveHere(line, rest, l, k);
    HasKeyConcat([line], rest, k);
    HasKeyOne(line, k);
    if KeyOf(line) != Some(k) {
      HasKeyNonEmpty(rest, k);
      KeysSurvive(rest, l, k);
    }
  }

  lemma KeysSurviveHere(line: string, rest: seq<string>, l: Lists, k: Key)
    ensures KeyOf(line) == Some(k) || (rest != [] && HasKey(LinesOf(Joined(WriteLines(rest, l), '\n')), k)) ==>
              HasKey(LinesOf(Joined(WriteLines([line] + rest, l), '\n')), k)
  {
    hide HasKey, WriteLine, KeyOf, Pieces, Joined, LinesOf;
    var first, others := WriteLine(line, l), WriteLines(rest, l);
    WriteLinesCons(line, rest, l);
    LinesOfJoinedCons(first, others);
    HasKeyConcat(LinesOf(first), LinesOf(Joined(others, '\n')), k);
    if KeyOf(line) == Some(k) {
      WrittenLineKeepsKey(line, l, k);
    }
  }

  lemma HasKeyNonEmpty(lines: seq<string>, k: Key)
    requires HasKey(lines, k)
    ensures lines != []
  {
  }

  lemma HasKeyOne(line: string, k: Key)
    ensures HasKey([line], k) <==> KeyOf(line) == Some(k)
  {
    hide KeyOf;
    assert [line][0] == line;
  }

  lemma RenderKeepsKey(k: Key, items: seq<string>)
    ensures KeyOf(Pieces(Render(k, items), '\n')[0]) == Some(k)
  {
    hide KeyOf, Pieces, KeyName;
    var rest := "=(" + Joined(items, ' ') + ")";
    KeyNameIsPlain(k);
    assert Render(k, items) == KeyName(k) + rest;
    PiecesHead(KeyName(k), rest, '\n');
    KeyOfPrefix(k, Pieces(rest, '\n')[0]);
  }

  lemma ParsedItems(line: string, c: char)
    requires c !in line
    ensures c != ' ' ==> FreeOf(ParseLine(line), c)
    ensures FreeOf(ParseLine(line), ' ') && ParseLine(line) != [""]
  {
    hide Pieces, Joined, Position;
    if Position(line, '(') < |line| {
      var data := Bracketed(line);
      SplitIsSplittable(data, ' ');
      JoinedSplit(data, ' ');
      if c != ' ' {
        JoinedFreeOf(Split(data, ' '), ' ', c);
      }
    }
  }

  /** Reading back what was written gives the object's lists exactly when every
      list that the file has a line for fits on one line. */
  lemma RoundTripExactly(content: string, l: Lists)
    requires content != ""
    ensures Parse(Write(content, l), l) == l <==> AllEncodable(LinesOf(content), l)
  {
    hide ParseKey, ParseLine, Render, Pieces, Joined, WriteLines, KeyOf, Parse;
    var lines, text := LinesOf(content), Write(content, l);
    if Parse(text, l) == l {
      forall k: Key | HasKey(lines, k) ensures FreeOf(l.Get(k), '\n') {
        KeysSurvive(lines, l, k);
        ParseByPieces(text, l, k);
        ParseKeyFindsLast(k, LinesOf(text), l.Get(k));
        var i :| 0 <= i < |LinesOf(text)| && KeyOf(LinesOf(text)[i]) == Some(k)
                 && l.Get(k) == ParseLine(LinesOf(text)[i]);
        PiecesAreFree(text, '\n');
        ParsedItems(LinesOf(text)[i], '\n');
      }
    }
    if NoNewlines(lines, l) {
      LinesOfWritten(content, l);
      forall k: Key
        ensures Parse(text, l).Get(k) == l.Get(k) <==> (HasKey(lines, k) ==> Encodable(l.Get(k)))
      {
        ParseByPieces(text, l, k);
        ParseOfWritten(lines, l, k, l.Get(k));
        ParseOfRender(k, l.Get(k));
        assert HasKey(lines, k) ==> FreeOf(l.Get(k), '\n');
      }
      SameLists(Parse(text, l), l);
    }
  }

  lemma SameLists(a: Lists, b: Lists)
    ensures a == b <==> forall k: Key :: a.Get(k) == b.Get(k)
  {
    if forall k: Key :: a.Get(k) == b.Get(k) {
      assert a.Get(Modules) == b.Get(Modules) && a.Get(Files) == b.Get(Files) && a.Get(Hooks) == b.Get(Hooks);
    }
  }

  // ----- writing keeps the rest of the file -----

  /** Line by line, writing changes the lines with a key and nothing else. */
  lemma WriteKeepsOtherLines(content: string, l: Lists, i: nat)
    requires content != "" && NoNewlines(LinesOf(content), l) && i < |LinesOf(content)|
    ensures |LinesOf(Write(content, l))| == |LinesOf(content)|
    ensures var line := LinesOf(content)[i];
            LinesOf(Write(content, l))[i] ==
            if "MODULES" <= line then "MODULES" + "=(" + Joined(l.modules, ' ') + ")"
            else if "FILES" <= line then "FILES" + "=(" + Joined(l.files, ' ') + ")"
            else if "HOOKS" <= line then "HOOKS" + "=(" + Joined(l.hooks, ' ') + ")"
            else line
  {
    hide Pieces, Joined;
    LinesOfWritten(content, l);
  }

  /** A file of three lines is read and written as it says. */
  lemma ThreeLines(l: Lists, before: Lists, next: Lists)
    requires Encodable(l.modules) && Encodable(l.files) && Encodable(l.hooks)
    ensures Parse(Printed(l), before) == l
    ensures Write(Printed(l), next) == Printed(next)
  {
    hide Render, KeyOf, ParseLine, Pieces, Joined;
    var m, f, h := Render(Modules, l.modules), Render(Files, l.files), Render(Hooks, l.hooks);
    var lines := [m, f, h];
    PrintedIsRendered(l);
    PrintedIsRendered(next);
    RenderFreeOfNewline(Modules, l.modules);
    RenderFreeOfNewline(Files, l.files);
    RenderFreeOfNewline(Hooks, l.hooks);
    PiecesOfJoined(lines, '\n');
    BracketsOfRender(Modules, l.modules);
    BracketsOfRender(Files, l.files);
    BracketsOfRender(Hooks, l.hooks);
    ParseOfRender(Modules, l.modules);
    ParseOfRender(Files, l.files);
    ParseOfRender(Hooks, l.hooks);
    forall k: Key
      ensures Parse(Printed(l), before).Get(k) == l.Get(k)
    {
      ParseByPieces(Printed(l), before, k);
      LastOfThree(k, lines, before.Get(k));
    }
    SameLists(Parse(Printed(l), before), l);
    WriteLineOfKey(m, next, Modules);
    WriteLineOfKey(f, next, Files);
    WriteLineOfKey(h, next, Hooks);
    assert WriteLines(lines, next) == [WriteLine(m, next), WriteLine(f, next), WriteLine(h, next)];
  }

  function Printed(l: Lists): string {
    "MODULES" + "=(" + Joined(l.modules, ' ') + ")" + "\n"
    + ("FILES" + "=(" + Joined(l.files, ' ') + ")" + "\n"
    + ("HOOKS" + "=(" + Joined(l.hooks, ' ') + ")"))
  }

  lemma PrintedIsRendered(l: Lists)
    ensures Printed(l) != ""
    ensures Printed(l) == Joined([Render(Modules, l.modules), Render(Files, l.files), Render(Hooks, l.hooks)], '\n')
  {
    hide Joined;
    var m, f, h := Render(Modules, l.modules), Render(Files, l.files), Render(Hooks, l.hooks);
    JoinedCons(m, [f, h], '\n');
    JoinedCons(f, [h], '\n');
    JoinedCons(h, [], '\n');
    assert [h] + [] == [h] && [f] + [h] == [f, h] && [m] + [f, h] == [m, f, h];
  }

  lemma {:induction false} LastOfThree(k: Key, lines: seq<string>, before: seq<string>)
    requires |lines| == 3
    requires KeyOf(lines[0]) == Some(Modules) && KeyOf(lines[1]) == Some(Files) && KeyOf(lines[2]) == Some(Hooks)
    ensures ParseKey(k, lines, before) ==
            match k
            case Modules => ParseLine(lines[0])
            case Files => ParseLine(lines[1])
            case Hooks => ParseLine(lines[2])
  {
    hide KeyOf, ParseLine;
    var two, one := lines[..2], lines[..1];
    assert two[..1] == one && two[1] == lines[1] && one[0] == lines[0] && |two| == 2 && |one| == 1;
    assert ParseKey(k, two, before) == if k == Files then ParseLine(lines[1]) else ParseKey(k, one, before);
    assert k == Modules ==> ParseKey(k, one, before) == ParseLine(lines[0]);
  }

  lemma WriteIsIdempotent(content: string, l: Lists)
    requires content != "" && NoNewlines(LinesOf(content), l)
    ensures Write(Write(content, l), l) == Write(content, l)
  {
    hide Pieces, Joined, KeyOf, Render, WriteLine;
    var text := Write(content, l);
    var lines := LinesOf(content);
    LinesOfWritten(content, l);
    var written := WriteLines(lines, l);
    forall i | 0 <= i < |lines| ensures WriteLine(written[i], l) == written[i] {
      WriteLineTwice(lines[i], l);
    }
    assert WriteLines(written, l) == written;
    if text == "" {
      assert Split(text, '\n') == [];
      EmptyJoined();
      assert WriteLines([], l) == [];
    }
  }

  lemma EmptyJoined()
    ensures Joined([], '\n') == ""
  {
  }

  lemma WriteLineTwice(line: string, l: Lists)
    ensures WriteLine(WriteLine(line, l), l) == WriteLine(line, l)
  {
    KeyOfWritten(line, l);
  }

  // ----- whole runs -----

  /** The file says what the object holds. */
  ghost predicate Agrees(st: State) {
    Readable(st.content) && Parse(st.content.value, st.lists) == st.lists
  }

  predicate CleanItem(item: string) {
    item != "" && ' ' !in item && ')' !in item && '\n' !in item
  }

  predicate Tidy(items: seq<string>) {
    forall i :: 0 <= i < |items| ==> CleanItem(items[i])
  }

  /** Every list that a line of the file gives is a list of proper names. */
  ghost predicate WellFormed(content: string) {
    forall k: Key :: HasKey(LinesOf(content), k) ==> Tidy(ParseKey(k, LinesOf(content), []))
  }

  ghost predicate AllTidy(lines: seq<string>, l: Lists) {
    forall k: Key :: HasKey(lines, k) ==> Tidy(l.Get(k))
  }

  predicate CleanEdit(e: Edit) {
    match e
    case AppendModule(m) => CleanItem(m)
    case AppendFile(f) => CleanItem(f)
    case AppendHook(h) => CleanItem(h)
    case AppendHooks(hs) => Tidy(hs)
    case InsertHook(_, h) => CleanItem(h)
    case InsertHooks(_, hs) => Tidy(hs)
    case RemoveModule(_) => true
    case RemoveHook(_) => true
  }

  lemma TidyIsEncodable(items: seq<string>)
    requires Tidy(items)
    ensures Encodable(items)
  {
    assert items != [] ==> CleanItem(items[0]);
  }

  lemma {:induction false} WithoutIsTidy(items: seq<string>, present: seq<string>)
    requires Tidy(items)
    ensures Tidy(Without(items, present))
  {
    if items != [] {
      assert CleanItem(items[0]);
      WithoutIsTidy(items[1..], present);
    }
  }

  lemma TidyConcat(a: seq<string>, b: seq<string>)
    requires Tidy(a) && Tidy(b)
    ensures Tidy(a + b)
  {
  }

  lemma InsertIsTidy(xs: seq<string>, i: nat, items: seq<string>)
    requires i <= |xs| && Tidy(xs) && Tidy(items)
    ensures Tidy(InsertAt(xs, i, items))
  {
    TidyConcat(xs[..i], items);
    TidyConcat(xs[..i] + items, xs[i..]);
  }

  lemma EraseIsTidy(xs: seq<string>, i: nat)
    requires i < |xs| && Tidy(xs)
    ensures Tidy(EraseAt(xs, i))
  {
    TidyConcat(xs[..i], xs[i + 1..]);
  }

  lemma ApplyKeepsTidy(e: Edit, l: Lists, k: Key)
    requires CleanEdit(e) && Tidy(l.Get(k)) && Apply(e, l).Some?
    ensures Tidy(Apply(e, l).value.Get(k))
  {
    hide Tidy, CleanItem, InsertAt, EraseAt, Position, Without;
    match e
    case AppendModule(m) => if k == Modules { TidyOne(m); TidyConcat(l.modules, [m]); }
    case AppendFile(f) => if k == Files { TidyOne(f); TidyConcat(l.files, [f]); }
    case AppendHook(h) => if k == Hooks { TidyOne(h); TidyConcat(l.hooks, [h]); }
    case AppendHooks(hs) => if k == Hooks { WithoutIsTidy(hs, l.hooks); TidyConcat(l.hooks, Without(hs, l.hooks)); }
    case InsertHook(n, h) => if k == Hooks { TidyOne(h); InsertIsTidy(l.hooks, Position(l.hooks, n), [h]); }
    case InsertHooks(n, hs) =>
      if k == Hooks { WithoutIsTidy(hs, l.hooks); InsertIsTidy(l.hooks, Position(l.hooks, n), Without(hs, l.hooks)); }
    case RemoveModule(m) => if k == Modules { EraseIsTidy(l.modules, Position(l.modules, m)); }
    case RemoveHook(h) => if k == Hooks { EraseIsTidy(l.hooks, Position(l.hooks, h)); }
  }

  lemma TidyOne(item: string)
    requires CleanItem(item)
    ensures Tidy([item])
  {
  }

  /** Parsing depends on the file alone for lists the file has, and keeps the others. */
  lemma ParseAgain(content: string, l: Lists)
    ensures Parse(content, Parse(content, l)) == Parse(content, l)
    ensures WellFormed(content) ==> AllTidy(LinesOf(content), Parse(content, l))
  {
    hide ParseKey, Pieces, Parse, Tidy;
    var lines, p := LinesOf(content), Parse(content, l);
    forall k: Key
      ensures Parse(content, p).Get(k) == p.Get(k)
      ensures HasKey(lines, k) ==> p.Get(k) == ParseKey(k, lines, [])
    {
      ParseByPieces(content, p, k);
      ParseByPieces(content, l, k);
      if HasKey(lines, k) {
        ParseKeyIgnoresOld(k, lines, l.Get(k), p.Get(k));
        ParseKeyIgnoresOld(k, lines, l.Get(k), []);
      }
      ParseKeyFindsLast(k, lines, l.Get(k));
      ParseKeyFindsLast(k, lines, p.Get(k));
    }
    SameLists(Parse(content, p), p);
  }

  lemma {:induction false} ParseKeyIgnoresOld(k: Key, lines: seq<string>, a: seq<string>, b: seq<string>)
    requires HasKey(lines, k)
    ensures ParseKey(k, lines, a) == ParseKey(k, lines, b)
    decreases |lines|
  {
    hide KeyOf, ParseLine;
    var n := |lines| - 1;
    if KeyOf(lines[n]) != Some(k) {
      assert lines == lines[..n] + [lines[n]];
      HasKeySnoc(lines[..n], lines[n], k);
      ParseKeyIgnoresOld(k, lines[..n], a, b);
    }
  }

  lemma WrittenIsNotEmpty(content: string, l: Lists)
    requires content != "" && NoNewlines(LinesOf(content), l)
    ensures Write(content, l) != ""
  {
    hide Pieces, Joined, KeyOf, Render, WriteLine;
    LinesOfWritten(content, l);
    if Write(content, l) == "" {
      EmptyPieces();
      var lines := LinesOf(content);
      assert |lines| == 1;
      assert lines == [lines[0]] + [];
      JoinedPieces(content, '\n');
      JoinedCons(lines[0], [], '\n');
      assert WriteLines(lines, l)[0] == "";
      WriteLineNotEmpty(lines[0], l);
    }
  }

  /** One call, precisely: object and file agree afterwards unless the edit left a
      list that does not fit on a line of the file. */
  lemma AgreesExactly(e: Edit, st: State)
    requires Readable(st.content)
    ensures var content, edited := st.content.value, Apply(e, Parse(st.content.value, st.lists));
            Agrees(After(e, st, true)) <==> (edited.Some? ==> AllEncodable(LinesOf(content), edited.value))
  {
    hide Parse, Write, Apply;
    ParseAgain(st.content.value, st.lists);
    var edited := Apply(e, Parse(st.content.value, st.lists));
    if edited.Some? {
      RoundTripExactly(st.content.value, edited.value);
      if AllEncodable(LinesOf(st.content.value), edited.value) {
        WrittenIsNotEmpty(st.content.value, edited.value);
      }
    }
  }

  /** It can happen: in "HOOKS=( a)" the blank counts as an empty hook, and when
      the other hook is removed, the list of one empty hook is written as no hook. */
  lemma StrayBlankBreaksAgreement()
    ensures var st := State(Some("HOOKS=( a)"), Lists([], [], []));
            Readable(st.content) && !Agrees(After(RemoveHook("a"), st, true))
  {
    hide Parse, Write, KeyOf, Render, Position, EraseAt, LinesOf, Agrees, After;
    var content, hooks := "HOOKS=( a)", ["", "a"];
    var st := State(Some(content), Lists([], [], []));
    BlankHookIsWritten();
    BlankHookIsRead(content, hooks, st.lists);
    BlankHookIsLeft(hooks);
    var edited := Apply(RemoveHook("a"), Parse(content, st.lists));
    assert edited.Some? && edited.value.Get(Hooks) == [""];
    AgreesExactly(RemoveHook("a"), st);
  }

  lemma BlankHookIsWritten()
    ensures Render(Hooks, ["", "a"]) == "HOOKS=( a)"
  {
    hide KeyOf;
    JoinedCons("", ["a"], ' ');
    JoinedCons("a", [], ' ');
    assert [""] + ["a"] == ["", "a"] && ["a"] + [] == ["a"];
    assert Joined(["", "a"], ' ') == " a";
  }

  lemma {:induction false} BlankHookIsLeft(hooks: seq<string>)
    requires hooks == ["", "a"]
    ensures Position(hooks, "a") == 1 && EraseAt(hooks, 1) == [""]
  {
    assert hooks[0] == "" && hooks[1] == "a";
  }

  lemma BlankHookIsRead(content: string, hooks: seq<string>, l: Lists)
    requires content == Render(Hooks, hooks) && hooks != [""]
    requires FreeOf(hooks, '\n') && FreeOf(hooks, ' ') && FreeOf(hooks, ')')
    ensures Parse(content, l).hooks == hooks && HasKey(LinesOf(content), Hooks)
  {
    hide Render, KeyOf, ParseLine, Pieces;
    RenderFreeOfNewline(Hooks, hooks);
    PiecesOfOne(content, '\n');
    assert LinesOf(content) == [content];
    BracketsOfRender(Hooks, hooks);
    ParseOfRender(Hooks, hooks);
    assert KeyOf([content][0]) == Some(Hooks);
    ParseByPieces(content, l, Hooks);
  }

  lemma EmptyPieces()
    ensures Pieces("", '\n') == [""]
  {
  }

  lemma WriteLineNotEmpty(line: string, l: Lists)
    ensures WriteLine(line, l) == "" ==> line == ""
  {
  }

  /** Between two calls. */
  ghost predicate InOrder(st: State) {
    Readable(st.content) && WellFormed(st.content.value)
  }

  lemma WrittenIsInOrder(content: string, l: Lists)
    requires content != "" && AllTidy(LinesOf(content), l)
    ensures Write(content, l) != "" && WellFormed(Write(content, l)) && Parse(Write(content, l), l) == l
    ensures NoNewlines(LinesOf(content), l)
  {
    hide ParseKey, ParseLine, Render, Pieces, Joined, WriteLines, KeyOf, Parse, Write, Tidy;
    var lines, text := LinesOf(content), Write(content, l);
    forall k: Key | HasKey(lines, k) ensures Encodable(l.Get(k)) {
      TidyIsEncodable(l.Get(k));
    }
    RoundTripExactly(content, l);
    WrittenIsNotEmpty(content, l);
    LinesOfWritten(content, l);
    forall k: Key | HasKey(LinesOf(text), k) ensures Tidy(ParseKey(k, LinesOf(text), [])) {
      KeysOfWritten(lines, l, k);
      ParseOfWritten(lines, l, k, []);
      ParseOfRender(k, l.Get(k));
    }
  }

  /** A call with proper names keeps a well-formed file well formed, and leaves
      object and file in agreement, whether or not it found something to do. */
  lemma CallKeepsAgreement(e: Edit, st: State)
    requires InOrder(st) && CleanEdit(e)
    ensures InOrder(After(e, st, true)) && Agrees(After(e, st, true))
  {
    hide ParseKey, Pieces, Parse, Write, Apply, Tidy, CleanEdit;
    var content, l := st.content.value, Parse(st.content.value, st.lists);
    ParseAgain(content, st.lists);
    var edited := Apply(e, l);
    if edited.Some? {
      forall k: Key | HasKey(LinesOf(content), k) ensures Tidy(edited.value.Get(k)) {
        ApplyKeepsTidy(e, l, k);
      }
      WrittenIsInOrder(content, edited.value);
    }
  }

  function Run(es: seq<Edit>, st: State, writable: bool): State {
    if es == [] then st else Run(es[1..], After(es[0], st, writable), writable)
  }

  /** The same edits on the lists alone, without a file. */
  function EditAll(es: seq<Edit>, l: Lists): Lists {
    if es == [] then l else EditAll(es[1..], Edited(es[0], l))
  }

  function Edited(e: Edit, l: Lists): Lists {
    match Apply(e, l)
    case Some(edited) => edited
    case None => l
  }

  // ----- which list a call changes, and how -----

  /** Without the first x. */
  ghost predicate FirstRemoved(xs: seq<string>, x: string, ys: seq<string>) {
    if x !in xs then ys == xs
    else exists i :: 0 <= i < |xs| && xs[i] == x && x !in xs[..i] && ys == xs[..i] + xs[i + 1..]
  }

  /** With the items in front of the first needle, or at the end if there is none. */
  ghost predicate PutBefore(xs: seq<string>, needle: string, items: seq<string>, ys: seq<string>) {
    exists i :: 0 <= i <= |xs| && needle !in xs[..i] && (i < |xs| ==> xs[i] == needle)
                && ys == xs[..i] + items + xs[i..]
  }

  /** The items that are not present, in order. */
  ghost predicate IsMissing(items: seq<string>, present: seq<string>, missing: seq<string>) {
    if items == [] then missing == []
    else if items[0] in present then IsMissing(items[1..], present, missing)
    else missing != [] && missing[0] == items[0] && IsMissing(items[1..], present, missing[1..])
  }

  /** Every call changes one list, as its name says, and leaves the other two alone. */
  ghost predicate Changes(e: Edit, l: Lists, l': Lists) {
    match e
    case AppendModule(m) => OtherThan(Modules, l, l') && Appended(l.modules, m, l'.modules)
    case AppendFile(f) => OtherThan(Files, l, l') && Appended(l.files, f, l'.files)
    case AppendHook(h) => OtherThan(Hooks, l, l') && Appended(l.hooks, h, l'.hooks)
    case AppendHooks(hs) =>
      OtherThan(Hooks, l, l') && exists new_ :: IsMissing(hs, l.hooks, new_) && l'.hooks == l.hooks + new_
    case InsertHook(needle, h) =>
      && OtherThan(Hooks, l, l')
      && if h in l.hooks then l'.hooks == l.hooks else PutBefore(l.hooks, needle, [h], l'.hooks)
    case InsertHooks(needle, hs) =>
      && OtherThan(Hooks, l, l')
      && exists new_ :: IsMissing(hs, l.hooks, new_) && PutBefore(l.hooks, needle, new_, l'.hooks)
    case RemoveModule(m) => OtherThan(Modules, l, l') && FirstRemoved(l.modules, m, l'.modules)
    case RemoveHook(h) => OtherThan(Hooks, l, l') && FirstRemoved(l.hooks, h, l'.hooks)
  }

  ghost predicate OtherThan(k: Key, l: Lists, l': Lists) {
    && (k != Modules ==> l'.modules == l.modules)
    && (k != Files ==> l'.files == l.files)
    && (k != Hooks ==> l'.hooks == l.hooks)
  }

  ghost predicate Appended(xs: seq<string>, x: string, ys: seq<string>) {
    ys == if x in xs then xs else xs + [x]
  }

  lemma OneListChanges(e: Edit, l: Lists)
    ensures Changes(e, l, Edited(e, l))
  {
    hide Position, Without, IsMissing, PutBefore, FirstRemoved;
    match e
    case AppendHooks(hs) =>
      WithoutIsMissing(hs, l.hooks);
      assert l.hooks + [] == l.hooks;
    case InsertHook(needle, h) =>
      PutAtPosition(l.hooks, needle, [h]);
    case InsertHooks(needle, hs) =>
      WithoutIsMissing(hs, l.hooks);
      PutAtPosition(l.hooks, needle, Without(hs, l.hooks));
      PutNothing(l.hooks, Position(l.hooks, needle));
    case RemoveModule(m) => ErasedAtPosition(l.modules, m);
    case RemoveHook(h) => ErasedAtPosition(l.hooks, h);
    case _ =>
  }

  /** A call finds something to do exactly if it changes the lists. */
  lemma AppliesExactly(e: Edit, l: Lists)
    ensures Apply(e, l).Some? <==> Edited(e, l) != l
  {
    hide Position, Without;
    var l' := Edited(e, l);
    if Apply(e, l).Some? {
      assert |l'.modules| != |l.modules| || |l'.files| != |l.files| || |l'.hooks| != |l.hooks|;
    }
  }

  lemma PutNothing(xs: seq<string>, i: nat)
    requires i <= |xs|
    ensures InsertAt(xs, i, []) == xs
  {
  }

  lemma {:induction false} WithoutIsMissing(items: seq<string>, present: seq<string>)
    ensures IsMissing(items, present, Without(items, present))
  {
    if items != [] {
      WithoutIsMissing(items[1..], present);
      var rest := Without(items[1..], present);
      assert ([items[0]] + rest)[1..] == rest;
    }
  }

  lemma {:induction false} PutAtPosition(xs: seq<string>, needle: string, items: seq<string>)
    ensures PutBefore(xs, needle, items, InsertAt(xs, Position(xs, needle), items))
  {
    assert needle !in xs[..Position(xs, needle)];
  }

  lemma {:induction false} ErasedAtPosition(xs: seq<string>, x: string)
    ensures FirstRemoved(xs, x, if Position(xs, x) == |xs| then xs else EraseAt(xs, Position(xs, x)))
    ensures x in xs <==> Position(xs, x) < |xs|
  {
    assert x !in xs[..Position(xs, x)];
  }

  // ----- what runs leave behind -----

  /** After any run of calls with proper names, object and file agree, and both
      hold what the edits make of the lists that were read at the start: the
      re-reading in every call is never visible. */
  lemma {:induction false} RunsAgree(es: seq<Edit>, st: State)
    requires InOrder(st) && forall e :: e in es ==> CleanEdit(e)
    ensures var end := Run(es, st, true);
            && InOrder(end)
            && (es != [] ==> Agrees(end))
            && Parse(end.content.value, end.lists) == EditAll(es, Parse(st.content.value, st.lists))
  {
    hide Parse, Write, Apply, Agrees, WellFormed, CleanEdit;
    if es != [] {
      var next := After(es[0], st, true);
      CallKeepsAgreement(es[0], st);
      AgreesMeaning(next);
      ParseAgain(st.content.value, st.lists);
      RunsAgree(es[1..], next);
    }
  }

  lemma AgreesMeaning(st: State)
    requires Agrees(st)
    ensures Readable(st.content) && Parse(st.content.value, st.lists) == st.lists
  {
  }

  /** And no call of the run touches a line without a key. */
  lemma {:induction false} RunsKeepOtherLines(es: seq<Edit>, st: State, i: nat)
    requires InOrder(st) && forall e :: e in es ==> CleanEdit(e)
    requires i < |LinesOf(st.content.value)|
    ensures Run(es, st, true).content.Some?
    ensures var before, after := LinesOf(st.content.value), LinesOf(Run(es, st, true).content.value);
            && |after| == |before|
            && KeyOf(after[i]) == KeyOf(before[i])
            && (KeyOf(before[i]) == None ==> after[i] == before[i])
  {
    hide ParseKey, Pieces, Parse, Write, Apply, WellFormed, CleanEdit, Tidy;
    if es != [] {
      var content, l := st.content.value, Parse(st.content.value, st.lists);
      var next := After(es[0], st, true);
      CallKeepsAgreement(es[0], st);
      var edited := Apply(es[0], l);
      if edited.Some? {
        ParseAgain(content, st.lists);
        forall k: Key | HasKey(LinesOf(content), k) ensures Tidy(edited.value.Get(k)) {
          ApplyKeepsTidy(es[0], l, k);
        }
        WrittenIsInOrder(content, edited.value);
        WriteKeepsOtherLines(content, edited.value, i);
        KeyOfWritten(LinesOf(content)[i], edited.value);
      }
      RunsKeepOtherLines(es[1..], next, i);
    }
  }
}
