/** mkinitcpio.conf as an object: three lists that are parsed from the file,
    edited, and written back into it on every call. */
module Initcpio {
  import opened Options
  import opened Text

  datatype Key = Modules | Files | Hooks

  function KeyName(k: Key): string {
    match k
    case Modules => "MODULES"
    case Files => "FILES"
    case Hooks => "HOOKS"
  }

  datatype Lists = Lists(modules: seq<string>, files: seq<string>, hooks: seq<string>) {
    function Get(k: Key): seq<string> {
      match k
      case Modules => modules
      case Files => files
      case Hooks => hooks
    }
  }

  function KeyOf(line: string): Option<Key> {
    if "MODULES" <= line then Some(Modules)
    else if "FILES" <= line then Some(Files)
    else if "HOOKS" <= line then Some(Hooks)
    else None
  }

  // ----- parsing -----

  /** std::find: the position of the first x, or the length. */
  function Position<T(==)>(xs: seq<T>, x: T): (i: nat)
    ensures i <= |xs|
    ensures i < |xs| ==> xs[i] == x
    ensures forall j :: 0 <= j < i ==> xs[j] != x
  {
    if xs == [] || xs[0] == x then 0 else 1 + Position(xs[1..], x)
  }

  /** What lies between the first opening and the first closing bracket. A closing
      bracket in front makes the length wrap around, so the rest of the line is taken. */
  function Bracketed(line: string): string
    requires Position(line, '(') < |line|
  {
    var open, close := Position(line, '('), Position(line, ')');
    if open < close then line[open + 1..close] else line[open + 1..]
  }

  function ParseLine(line: string): seq<string> {
    if Position(line, '(') < |line| && Position(line, ')') < |line| then Split(Bracketed(line), ' ') else []
  }

  /** The list that the last line with this key gives; without one, what was there before. */
  function ParseKey(k: Key, lines: seq<string>, old_: seq<string>): seq<string> {
    if lines == [] then old_
    else if KeyOf(lines[|lines| - 1]) == Some(k) then ParseLine(lines[|lines| - 1])
    else ParseKey(k, lines[..|lines| - 1], old_)
  }

  function ParseLines(lines: seq<string>, l: Lists): Lists {
    Lists(ParseKey(Modules, lines, l.modules), ParseKey(Files, lines, l.files), ParseKey(Hooks, lines, l.hooks))
  }

  function Parse(content: string, l: Lists): Lists {
    ParseLines(Fields(content, '\n'), l)
  }

  // ----- writing -----

  function Render(k: Key, items: seq<string>): string {
    KeyName(k) + "=(" + Joined(items, ' ') + ")"
  }

  function WriteLine(line: string, l: Lists): string {
    match KeyOf(line)
    case Some(k) => Render(k, l.Get(k))
    case None => line
  }

  function WriteLines(lines: seq<string>, l: Lists): (r: seq<string>)
    ensures |r| == |lines|
    ensures forall i :: 0 <= i < |lines| ==> r[i] == WriteLine(lines[i], l)
  {
    seq(|lines|, i requires 0 <= i < |lines| => WriteLine(lines[i], l))
  }

  function Write(content: string, l: Lists): string {
    Joined(WriteLines(Split(content, '\n'), l), '\n')
  }

  // ----- editing -----

  datatype Edit =
    | AppendModule(item: string)
    | AppendFile(item: string)
    | AppendHook(item: string)
    | AppendHooks(items: seq<string>)
    | InsertHook(needle: string, item: string)
    | InsertHooks(needle: string, items: seq<string>)
    | RemoveModule(item: string)
    | RemoveHook(item: string)

  function Without(items: seq<string>, present: seq<string>): seq<string> {
    if items == [] then []
    else if items[0] in present then Without(items[1..], present)
    else [items[0]] + Without(items[1..], present)
  }

  function InsertAt(xs: seq<string>, i: nat, items: seq<string>): seq<string>
    requires i <= |xs|
  {
    xs[..i] + items + xs[i..]
  }

  function EraseAt(xs: seq<string>, i: nat): seq<string>
    requires i < |xs|
  {
    xs[..i] + xs[i + 1..]
  }

  /** The lists after an edit; None where the edit finds nothing to do. */
  function Apply(e: Edit, l: Lists): Option<Lists> {
    match e
    case AppendModule(m) => if m in l.modules then None else Some(l.(modules := l.modules + [m]))
    case AppendFile(f) => if f in l.files then None else Some(l.(files := l.files + [f]))
    case AppendHook(h) => if h in l.hooks then None else Some(l.(hooks := l.hooks + [h]))
    case AppendHooks(hs) =>
      var toAdd := Without(hs, l.hooks);
      if toAdd == [] then None else Some(l.(hooks := l.hooks + toAdd))
    case InsertHook(needle, h) =>
      if h in l.hooks then None else Some(l.(hooks := InsertAt(l.hooks, Position(l.hooks, needle), [h])))
    case InsertHooks(needle, hs) =>
      var toAdd := Without(hs, l.hooks);
      if toAdd == [] then None else Some(l.(hooks := InsertAt(l.hooks, Position(l.hooks, needle), toAdd)))
    case RemoveModule(m) =>
      var i := Position(l.modules, m);
      if i == |l.modules| then None else Some(l.(modules := EraseAt(l.modules, i)))
    case RemoveHook(h) =>
      var i := Position(l.hooks, h);
      if i == |l.hooks| then None else Some(l.(hooks := EraseAt(l.hooks, i)))
  }

  /** A file, absent or with a content, and the object's copy of its lists. */
  datatype State = State(content: Option<string>, lists: Lists)

  predicate Readable(content: Option<string>) {
    content.GetOr("") != ""
  }

  /** What one call does to file and object. */
  function After(e: Edit, st: State, writable: bool): State {
    if !Readable(st.content) then st
    else
      var l := Parse(st.content.value, st.lists);
      match Apply(e, l)
      case None => State(st.content, l)
      case Some(l') => State(if writable then Some(Write(st.content.value, l')) else st.content, l')
  }

  function Succeeds(e: Edit, st: State, writable: bool): bool {
    Readable(st.content) && writable && Apply(e, Parse(st.content.value, st.lists)).Some?
  }

  class Initcpio {
    var modules: seq<string>
    var files: seq<string>
    var hooks: seq<string>
    /** The file behind the object's path, and whether it can be opened for writing. */
    var content: Option<string>
    const writable: bool

    constructor (content: Option<string>, writable: bool)
      ensures this.content == content && this.writable == writable && Abstract() == State(content, Lists([], [], []))
    {
      modules, files, hooks := [], [], [];
      this.content := content;
      this.writable := writable;
    }

    ghost function Abstract(): State
      reads this
    {
      State(content, Lists(modules, files, hooks))
    }

    /** parse_file: the last line with a key wins. */
    method ParseFile() returns (ok: bool)
      modifies `modules, `files, `hooks
      ensures ok == Readable(content)
      ensures Abstract().lists == if ok then Parse(content.value, old(Abstract().lists)) else old(Abstract().lists)
    {
      hide ParseLine, Fields;
      if content == None || content.value == "" {
        return false;
      }
      var lines := Fields(content.value, '\n');
      assert lines[..0] == [];
      for i := 0 to |lines|
        invariant Abstract().lists == ParseLines(lines[..i], old(Abstract().lists))
      {
        var line := lines[i];
        assert lines[..i + 1][..i] == lines[..i] && lines[..i + 1][i] == line;
        if "MODULES" <= line {
          modules := ParseLine(line);
        } else if "FILES" <= line {
          files := ParseLine(line);
        } else if "HOOKS" <= line {
          hooks := ParseLine(line);
        }
      }
      assert lines[..|lines|] == lines;
      return true;
    }

    /** write: puts the lists into the file and keeps every other line. */
    method WriteFile() returns (ok: bool)
      modifies `content
      ensures ok == (Readable(old(content)) && writable)
      ensures content == if ok then Some(Write(old(content).value, Abstract().lists)) else old(content)
    {
      hide WriteLine, Split;
      if content == None || content.value == "" {
        return false;
      }
      ghost var l := Abstract().lists;
      var lines := Split(content.value, '\n');
      var result := "";
      var firstLine := true;
      for i := 0 to |lines|
        invariant content == old(content) && firstLine == (i == 0)
        invariant result == Joined(WriteLines(lines[..i], l), '\n')
      {
        ghost var before := WriteLines(lines[..i], l);
        assert WriteLines(lines[..i + 1], l) == before + [WriteLine(lines[i], l)];
        if before != [] {
          JoinedGrows(before, WriteLine(lines[i], l), '\n');
        } else {
          assert before + [WriteLine(lines[i], l)] == [WriteLine(lines[i], l)];
        }
        if !firstLine {
          result := result + ['\n'];
        }
        var line := WriteLine(lines[i], Lists(modules, files, hooks));
        result := result + line;
        firstLine := false;
      }
      assert lines[..|lines|] == lines;
      if !writable {
        return false;
      }
      content := Some(result);
      return true;
    }

    method AppendModule(m: string) returns (ok: bool)
      modifies this
      ensures Abstract() == After(Edit.AppendModule(m), old(Abstract()), writable)
      ensures ok == Succeeds(Edit.AppendModule(m), old(Abstract()), writable)
    {
      ok := ParseFile();
      if !ok { return; }
      if m in modules { return false; }
      modules := modules + [m];
      ok := WriteFile();
    }

    method AppendFile(f: string) returns (ok: bool)
      modifies this
      ensures Abstract() == After(Edit.AppendFile(f), old(Abstract()), writable)
      ensures ok == Succeeds(Edit.AppendFile(f), old(Abstract()), writable)
    {
      ok := ParseFile();
      if !ok { return; }
      if f in files { return false; }
      files := files + [f];
      ok := WriteFile();
    }

    method AppendHook(h: string) returns (ok: bool)
      modifies this
      ensures Abstract() == After(Edit.AppendHook(h), old(Abstract()), writable)
      ensures ok == Succeeds(Edit.AppendHook(h), old(Abstract()), writable)
    {
      ok := ParseFile();
      if !ok { return; }
      if h in hooks { return false; }
      hooks := hooks + [h];
      ok := WriteFile();
    }

    method AppendHooks(hs: seq<string>) returns (ok: bool)
      modifies this
      ensures Abstract() == After(Edit.AppendHooks(hs), old(Abstract()), writable)
      ensures ok == Succeeds(Edit.AppendHooks(hs), old(Abstract()), writable)
    {
      ok := ParseFile();
      if !ok { return; }
      var toAdd := Without(hs, hooks);
      if toAdd == [] { return false; }
      hooks := hooks + toAdd;
      ok := WriteFile();
    }

    method InsertHook(needle: string, h: string) returns (ok: bool)
      modifies this
      ensures Abstract() == After(Edit.InsertHook(needle, h), old(Abstract()), writable)
      ensures ok == Succeeds(Edit.InsertHook(needle, h), old(Abstract()), writable)
    {
      ok := ParseFile();
      if !ok { return; }
      if h in hooks { return false; }
      hooks := InsertAt(hooks, Position(hooks, needle), [h]);
      ok := WriteFile();
    }

    method InsertHooks(needle: string, hs: seq<string>) returns (ok: bool)
      modifies this
      ensures Abstract() == After(Edit.InsertHooks(needle, hs), old(Abstract()), writable)
      ensures ok == Succeeds(Edit.InsertHooks(needle, hs), old(Abstract()), writable)
    {
      ok := ParseFile();
      if !ok { return; }
      var toAdd := Without(hs, hooks);
      if toAdd == [] { return false; }
      hooks := InsertAt(hooks, Position(hooks, needle), toAdd);
      ok := WriteFile();
    }

    method RemoveModule(m: string) returns (ok: bool)
      modifies this
      ensures Abstract() == After(Edit.RemoveModule(m), old(Abstract()), writable)
      ensures ok == Succeeds(Edit.RemoveModule(m), old(Abstract()), writable)
    {
      ok := ParseFile();
      if !ok { return; }
      var i := Position(modules, m);
      if i == |modules| { return false; }
      modules := EraseAt(modules, i);
      ok := WriteFile();
    }

    method RemoveHook(h: string) returns (ok: bool)
      modifies this
      ensures Abstract() == After(Edit.RemoveHook(h), old(Abstract()), writable)
      ensures ok == Succeeds(Edit.RemoveHook(h), old(Abstract()), writable)
    {
      ok := ParseFile();
      if !ok { return; }
      var i := Position(hooks, h);
      if i == |hooks| { return false; }
      hooks := EraseAt(hooks, i);
      ok := WriteFile();
    }
  }

  // ----- what a written line says when it is read -----

  ghost predicate HasKey(lines: seq<string>, k: Key) {
    exists i :: 0 <= i < |lines| && KeyOf(lines[i]) == Some(k)
  }

  /** A list that one line of the file can hold. */
  predicate Encodable(items: seq<string>) {
    FreeOf(items, ' ') && FreeOf(items, ')') && FreeOf(items, '\n') && items != [""]
  }

  lemma {:induction false} IndexOfLater(a: string, b: string, c: char)
    requires c !in a
    ensures Position(a + b, c) == |a| + Position(b, c)
  {
    if a == [] {
      assert a + b == b;
    } else {
      assert (a + b)[1..] == a[1..] + b;
      IndexOfLater(a[1..], b, c);
    }
  }

  lemma {:induction false} IndexOfEarlier(a: string, b: string, c: char)
    requires c in a
    ensures Position(a + b, c) == Position(a, c) < |a|
  {
    if a[0] != c {
      assert (a + b)[1..] == a[1..] + b;
      IndexOfEarlier(a[1..], b, c);
    }
  }

  lemma KeyNameIsPlain(k: Key)
    ensures forall c :: c in KeyName(k) ==> 'A' <= c <= 'Z'
    ensures KeyOf(KeyName(k)) == Some(k)
  {
    match k
    case Modules => PlainModules();
    case Files =>
      var n := "FILES";
      assert n[0] == 'F' && n[1] == 'I' && n[2] == 'L' && n[3] == 'E' && n[4] == 'S';
    case Hooks =>
      var n := "HOOKS";
      assert n[0] == 'H' && n[1] == 'O' && n[2] == 'O' && n[3] == 'K' && n[4] == 'S';
  }

  lemma PlainModules()
    ensures forall c :: c in "MODULES" ==> 'A' <= c <= 'Z'
  {
    var n := "MODULES";
    assert n[0] == 'M' && n[1] == 'O' && n[2] == 'D' && n[3] == 'U' && n[4] == 'L' && n[5] == 'E' && n[6] == 'S';
  }

  lemma KeyOfPrefix(k: Key, rest: string)
    ensures KeyOf(KeyName(k) + rest) == Some(k)
  {
    var line := KeyName(k) + rest;
    assert line[0] == KeyName(k)[0];
    match k
    case Modules => assert "MODULES" <= line;
    case Files => assert "FILES" <= line && "MODULES"[0] != line[0];
    case Hooks => assert "HOOKS" <= line && "MODULES"[0] != line[0] && "FILES"[0] != line[0];
  }

  lemma {:induction false} BracketsOfRender(k: Key, items: seq<string>)
    ensures var line, body := Render(k, items), Joined(items, ' ') + ")";
            && Position(line, '(') < |line| && Position(line, ')') < |line|
            && Bracketed(line) == body[..Position(body, ')')]
    ensures KeyOf(Render(k, items)) == Some(k)
  {
    hide KeyName, Joined, KeyOf, Position;
    KeyNameIsPlain(k);
    var line, body := Render(k, items), Joined(items, ' ') + ")";
    var name := KeyName(k);
    assert line == name + ("=(" + body);
    KeyOfPrefix(k, "=(" + body);
    assert line == (name + "=") + ("(" + body) && line == (name + "=(") + body;
    IndexOfLater(name + "=", "(" + body, '(');
    IndexHere("(" + body, '(');
    IndexOfLater(name + "=(", body, ')');
    assert body[|body| - 1] == ')';
  }

  lemma {:induction false} IndexHere(s: string, c: char)
    requires s != [] && s[0] == c
    ensures Position(s, c) == 0
  {
  }

  /** A rendered list is read back exactly when no item has a space or a closing
      bracket and the list is not a single empty item. */
  lemma ParseOfRender(k: Key, items: seq<string>)
    ensures ParseLine(Render(k, items)) == items <==> FreeOf(items, ' ') && FreeOf(items, ')') && items != [""]
  {
    hide Render, Bracketed, Joined, Position, Pieces;
    var text := Joined(items, ' ');
    var body := text + ")";
    BracketsOfRender(k, items);
    JoinedFreeOf(items, ' ', ')');
    if FreeOf(items, ')') {
      IndexOfLater(text, ")", ')');
      IndexHere(")", ')');
      assert body[..|text|] == text;
      SplitOfJoined(items, ' ');
    } else {
      IndexOfEarlier(text, ")", ')');
      var cut := body[..Position(body, ')')];
      assert |cut| < |text|;
      JoinedSplit(cut, ' ');
    }
  }

  /** The items stand between the first opening and the first closing bracket, or behind the
      opening one if the closing one comes first; without both there are none. */
  lemma ParseLineByCase(a: string, b: string, c: string)
    requires '(' !in a && ')' !in a
    ensures ')' !in b ==> ParseLine(a + "(" + b + ")" + c) == Split(b, ' ')
    ensures '(' !in b ==> ParseLine(a + ")" + b + "(" + c) == Split(c, ' ')
    ensures '(' !in b || ')' !in b ==> ParseLine(a + b) == []
  {
    hide Split, Position;
    var forward, backward := a + "(" + b + ")" + c, a + ")" + b + "(" + c;
    if ')' !in b {
      TwoMarks(a, '(', b, ')', c);
      assert forward[|a| + 1..|a| + 1 + |b|] == b;
    }
    if '(' !in b {
      TwoMarks(a, ')', b, '(', c);
      assert backward[|a| + 1 + |b| + 1..] == c;
    }
    NotThere(a + b, '(');
    NotThere(a + b, ')');
  }

  lemma {:induction false} TwoMarks(a: string, x: char, b: string, y: char, c: string)
    requires x !in a && y !in a && y !in b && x != y
    ensures var line := a + [x] + b + [y] + c;
            Position(line, x) == |a| < |line| && Position(line, y) == |a| + 1 + |b| < |line|
  {
    hide Position;
    var line := a + [x] + b + [y] + c;
    assert line == a + ([x] + b + [y] + c) && line == (a + [x] + b) + ([y] + c);
    IndexOfLater(a, [x] + b + [y] + c, x);
    IndexHere([x] + b + [y] + c, x);
    IndexOfLater(a + [x] + b, [y] + c, y);
    IndexHere([y] + c, y);
  }

  lemma {:induction false} NotThere(s: string, c: char)
    ensures c !in s ==> Position(s, c) == |s|
  {
  }

  lemma {:induction false} JoinedSplit(s: string, d: char)
    ensures Joined(Split(s, d), d) == s
  {
    JoinedPieces(s, d);
  }

  // ----- keys line by line -----

  /** The parsed list comes from some line with the key. */
  ghost predicate FromSomeLine(k: Key, lines: seq<string>, items: seq<string>) {
    exists i :: 0 <= i < |lines| && KeyOf(lines[i]) == Some(k) && items == ParseLine(lines[i])
  }

  lemma {:induction false} ParseKeyFindsLast(k: Key, lines: seq<string>, old_: seq<string>)
    ensures if HasKey(lines, k) then FromSomeLine(k, lines, ParseKey(k, lines, old_))
            else ParseKey(k, lines, old_) == old_
    decreases |lines|
  {
    hide KeyOf, ParseLine;
    if lines != [] {
      var n := |lines| - 1;
      var init := lines[..n];
      assert lines == init + [lines[n]];
      HasKeySnoc(init, lines[n], k);
      ParseKeyFindsLast(k, init, old_);
      if KeyOf(lines[n]) != Some(k) && HasKey(init, k) {
        var i :| 0 <= i < n && KeyOf(init[i]) == Some(k) && ParseKey(k, init, old_) == ParseLine(init[i]);
        assert lines[i] == init[i];
      }
    }
  }

  lemma {:induction false} ParseKeySkipsEmpty(k: Key, lines: seq<string>, old_: seq<string>)
    ensures ParseKey(k, NonEmpty(lines), old_) == ParseKey(k, lines, old_)
    ensures HasKey(NonEmpty(lines), k) <==> HasKey(lines, k)
    decreases |lines|
  {
    if lines != [] {
      var n := |lines| - 1;
      var init, last := lines[..n], lines[n];
      ParseKeySkipsEmpty(k, init, old_);
      assert lines == init + [last];
      NonEmptyConcat(init, [last]);
      assert [last][1..] == [];
      HasKeySnoc(init, last, k);
      if last == "" {
        assert NonEmpty(lines) == NonEmpty(init);
        assert KeyOf(last) == None;
      } else {
        assert NonEmpty(lines) == NonEmpty(init) + [last];
        HasKeySnoc(NonEmpty(init), last, k);
        assert (NonEmpty(init) + [last])[..|NonEmpty(init)|] == NonEmpty(init);
      }
    }
  }

  lemma HasKeySnoc(lines: seq<string>, line: string, k: Key)
    ensures HasKey(lines + [line], k) <==> HasKey(lines, k) || KeyOf(line) == Some(k)
  {
    hide KeyOf;
    var all := lines + [line];
    if HasKey(lines, k) {
      var i :| 0 <= i < |lines| && KeyOf(lines[i]) == Some(k);
      assert all[i] == lines[i];
    }
    if KeyOf(line) == Some(k) {
      assert all[|lines|] == line;
    }
  }

  /** Parsing seen on the raw lines of a file. */
  lemma {:induction false} ParseByPieces(content: string, l: Lists, k: Key)
    ensures Parse(content, l).Get(k) == ParseKey(k, Pieces(content, '\n'), l.Get(k))
  {
    hide ParseKey;
    FieldsAreNonEmptyPieces(content, '\n');
    ParseKeySkipsEmpty(k, Pieces(content, '\n'), l.Get(k));
  }
}
