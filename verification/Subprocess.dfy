/** The command line and the environment block of a new process: each is measured in a
    first pass and written into a buffer of exactly that size in a second. */
module Subprocess {
  import opened Text

  const NUL := '\0'
  const QUOTE := '"'
  const BACKSLASH := '\\'

  // ----- what is written -----

  /** A quote is escaped, and so is a backslash directly before one. */
  predicate NeedsEscape(s: string)
    requires s != ""
  {
    s[0] == QUOTE || (s[0] == BACKSLASH && |s| > 1 && s[1] == QUOTE)
  }

  function Escaped(s: string): string {
    if s == "" then ""
    else if NeedsEscape(s) then [BACKSLASH, s[0]] + Escaped(s[1..])
    else [s[0]] + Escaped(s[1..])
  }

  /** The arguments behind the first. */
  function Tail(args: seq<string>): string {
    if args == [] then "" else [' ', QUOTE] + Escaped(args[0]) + [QUOTE] + Tail(args[1..])
  }

  function Command(args: seq<string>): string {
    if args == [] then "" else [QUOTE] + Escaped(args[0]) + [QUOTE] + Tail(args[1..])
  }

  /** Every entry is terminated, and so, twice, is the block. */
  function Block(env: seq<string>): string {
    if env == [] then [NUL, NUL] else env[0] + [NUL] + Block(env[1..])
  }

  // ----- the two passes -----

  method Put(buffer: array<char>, at: nat, c: char) returns (next: nat)
    requires at < buffer.Length
    modifies buffer
    ensures next == at + 1 && buffer[..next] == old(buffer[..at]) + [c]
  {
    buffer[at] := c;
    next := at + 1;
  }

  /** The first pass over the environment; it starts with the two final terminators. */
  method MeasureEnvironment(env: seq<string>) returns (len: nat)
    ensures len == |Block(env)|
  {
    len := 2;
    assert env[0..] == env;
    for i := 0 to |env|
      invariant len + |Block(env[i..])| == |Block(env)| + 2
    {
      BlockStep(env, i);
      for j := 0 to |env[i]|
        invariant len + |env[i]| - j + 1 + |Block(env[i + 1..])| == |Block(env)| + 2
      {
        len := len + 1;
      }
      len := len + 1;
    }
    assert env[|env|..] == [];
  }

  lemma BlockStep(env: seq<string>, i: nat)
    requires i < |env|
    ensures Block(env[i..]) == env[i] + [NUL] + Block(env[i + 1..])
  {
    assert env[i..][1..] == env[i + 1..];
  }

  /** Every write is inside the buffer, and the buffer is filled to its last character. */
  method EnvironmentBlock(env: seq<string>) returns (buffer: array<char>)
    ensures fresh(buffer) && buffer[..] == Block(env)
  {
    hide Block;
    var len := MeasureEnvironment(env);
    buffer := new char[len];
    len := 0;
    ghost var size := |Block(env)|;
    assert env[0..] == env && buffer[..0] + Block(env) == Block(env);
    for i := 0 to |env|
      invariant len + |Block(env[i..])| == size == buffer.Length
      invariant buffer[..len] + Block(env[i..]) == Block(env)
    {
      BlockStep(env, i);
      ghost var before, rest := buffer[..len], Block(env[i + 1..]);
      assert before + env[i][..0] == before;
      for j := 0 to |env[i]|
        invariant len == |before| + j && |before| + |env[i]| + 1 + |rest| == buffer.Length
        invariant buffer[..len] == before + env[i][..j]
      {
        len := Put(buffer, len, env[i][j]);
        assert env[i][..j + 1] == env[i][..j] + [env[i][j]];
      }
      len := Put(buffer, len, NUL);
      assert env[i][..|env[i]|] == env[i];
      assert buffer[..len] + rest == before + (env[i] + [NUL] + rest);
    }
    BlockOfNothing();
    assert env[|env|..] == [];
    len := Put(buffer, len, NUL);
    len := Put(buffer, len, NUL);
    assert buffer[..len] == buffer[..];
  }

  lemma BlockOfNothing()
    ensures Block([]) == [NUL, NUL]
  {
  }

  /** The size of the arguments from i on: a quote on either side, and a blank or the
      terminator. */
  function Cost(args: seq<string>): nat {
    if args == [] then 0 else 3 + |Escaped(args[0])| + Cost(args[1..])
  }

  lemma {:induction false} CostOfTail(args: seq<string>)
    ensures |Tail(args)| == Cost(args)
  {
    if args != [] {
      CostOfTail(args[1..]);
    }
  }

  lemma EscapedStep(arg: string, j: nat)
    requires j < |arg|
    ensures NeedsEscape(arg[j..]) <==> arg[j] == QUOTE || (arg[j] == BACKSLASH && j + 1 < |arg| && arg[j + 1] == QUOTE)
    ensures Escaped(arg[j..]) ==
            (if NeedsEscape(arg[j..]) then [BACKSLASH, arg[j]] else [arg[j]]) + Escaped(arg[j + 1..])
  {
    assert arg[j..][1..] == arg[j + 1..];
  }

  method MeasureArgument(arg: string) returns (len: nat)
    ensures len == |Escaped(arg)|
  {
    hide Escaped;
    len := 0;
    assert arg[0..] == arg;
    for j := 0 to |arg|
      invariant len + |Escaped(arg[j..])| == |Escaped(arg)|
    {
      EscapedStep(arg, j);
      if arg[j] == BACKSLASH {
        if j + 1 < |arg| && arg[j + 1] == QUOTE {
          len := len + 1;
        }
      } else if arg[j] == QUOTE {
        len := len + 1;
      }
      len := len + 1;
    }
    EscapedNothing();
    assert arg[|arg|..] == "";
  }

  lemma EscapedNothing()
    ensures Escaped("") == ""
  {
  }

  method MeasureCommand(args: seq<string>) returns (len: nat)
    ensures len == Cost(args)
  {
    hide Escaped;
    len := 0;
    assert args[0..] == args;
    for i := 0 to |args|
      invariant len + Cost(args[i..]) == Cost(args)
    {
      assert args[i..][1..] == args[i + 1..];
      var argument := MeasureArgument(args[i]);
      len := len + 3 + argument;
    }
    assert args[|args|..] == [];
  }

  method WriteArgument(buffer: array<char>, at: nat, arg: string) returns (len: nat)
    requires at + |Escaped(arg)| <= buffer.Length
    modifies buffer
    ensures len == at + |Escaped(arg)| && buffer[..len] == old(buffer[..at]) + Escaped(arg)
  {
    hide Escaped, NeedsEscape;
    len := at;
    ghost var before := buffer[..at];
    assert arg[0..] == arg;
    for j := 0 to |arg|
      invariant len + |Escaped(arg[j..])| == at + |Escaped(arg)|
      invariant buffer[..len] + Escaped(arg[j..]) == before + Escaped(arg)
    {
      EscapedStep(arg, j);
      ghost var start, rest := buffer[..len], Escaped(arg[j + 1..]);
      if arg[j] == BACKSLASH {
        if j + 1 < |arg| && arg[j + 1] == QUOTE {
          len := Put(buffer, len, BACKSLASH);
        }
      } else if arg[j] == QUOTE {
        len := Put(buffer, len, BACKSLASH);
      }
      len := Put(buffer, len, arg[j]);
      assert buffer[..len] + rest == start + ((if NeedsEscape(arg[j..]) then [BACKSLASH, arg[j]] else [arg[j]]) + rest);
    }
    EscapedNothing();
    assert arg[|arg|..] == "";
    assert buffer[..len] + "" == buffer[..len];
  }

  /** One argument as it stands on the command line. */
  function Quoted(arg: string, first: bool): string {
    (if first then [QUOTE] else [' ', QUOTE]) + Escaped(arg) + [QUOTE]
  }

  method WriteQuoted(buffer: array<char>, at: nat, arg: string, first: bool) returns (len: nat)
    requires at + |Quoted(arg, first)| <= buffer.Length
    modifies buffer
    ensures len == at + |Quoted(arg, first)| && buffer[..len] == old(buffer[..at]) + Quoted(arg, first)
  {
    hide Escaped;
    len := at;
    if !first {
      len := Put(buffer, len, ' ');
    }
    len := Put(buffer, len, QUOTE);
    len := WriteArgument(buffer, len, arg);
    len := Put(buffer, len, QUOTE);
  }

  /** The arguments from i on, as they are still to be written. */
  function From(args: seq<string>, i: nat): string
    requires i <= |args|
  {
    if i == 0 then Command(args) else Tail(args[i..])
  }

  lemma FromStep(args: seq<string>, i: nat)
    requires i < |args|
    ensures From(args, i) == Quoted(args[i], i == 0) + From(args, i + 1)
  {
    hide Escaped;
    assert args[i..][1..] == args[i + 1..];
  }

  /** For any list of arguments but the empty one, for which nothing is reserved, all
      writes are inside the buffer and fill it exactly, terminator included. */
  method CommandLine(args: seq<string>) returns (buffer: array<char>)
    requires args != []
    ensures fresh(buffer) && buffer[..] == Command(args) + [NUL]
  {
    hide Escaped, Tail, Command, From, Quoted, Cost;
    var len := MeasureCommand(args);
    buffer := new char[len];
    SizeOfCommand(args);
    len := 0;
    assert buffer[..0] + Command(args) == Command(args);
    FromStart(args);
    for i := 0 to |args|
      invariant len + |From(args, i)| + 1 == buffer.Length
      invariant buffer[..len] + From(args, i) == Command(args)
    {
      FromStep(args, i);
      ghost var start, rest := buffer[..len], From(args, i + 1);
      len := WriteQuoted(buffer, len, args[i], i == 0);
      assert buffer[..len] + rest == start + (Quoted(args[i], i == 0) + rest);
    }
    FromEnd(args);
    assert buffer[..len] + "" == buffer[..len];
    len := Put(buffer, len, NUL);
    assert buffer[..len] == buffer[..];
  }

  lemma FromStart(args: seq<string>)
    ensures From(args, 0) == Command(args)
  {
  }

  lemma FromEnd(args: seq<string>)
    requires args != []
    ensures From(args, |args|) == ""
  {
  }

  /** The measure is the size of the command line and its terminator, except that it is
      nothing for no arguments. */
  lemma {:induction false} SizeOfCommand(args: seq<string>)
    ensures Cost(args) == |Command(args) + [NUL]| <==> args != []
  {
    hide Escaped;
    if args != [] {
      CostOfTail(args[1..]);
    }
  }

  // ----- what the quoting is -----

  lemma {:induction false} PlainIsKept(s: string)
    requires '"' !in s
    ensures Escaped(s) == s
  {
    if s != "" {
      PlainIsKept(s[1..]);
      assert s == [s[0]] + s[1..];
    }
  }

  /** An argument without quotes stays as it is. A quote gets a backslash in front, and one more
      if a backslash stands directly before it; what is on either side is escaped by itself. */
  lemma {:induction false} QuoteIsEscaped(a: string, b: string)
    ensures Escaped(a + "\"" + b) ==
            Escaped(a) + (if a != "" && a[|a| - 1] == '\\' then "\\\\\"" else "\\\"") + Escaped(b)
    ensures '"' !in a ==> Escaped(a) == a
  {
    hide Escaped;
    var s := a + "\"" + b;
    EscapedNothing();
    EscapedCons(s);
    if '"' !in a {
      PlainIsKept(a);
    }
    if a == "" {
      assert s[1..] == b && s[0] == '"';
      assert [BACKSLASH, s[0]] == "\\\"";
    } else {
      assert s[1..] == a[1..] + "\"" + b && s[0] == a[0];
      QuoteIsEscaped(a[1..], b);
      EscapedCons(a);
      assert s[1] == if |a| > 1 then a[1] else '"';
      LastOfTail(a);
    }
  }

  lemma LastOfTail(a: string)
    requires a != ""
    ensures |a| > 1 ==> a[1..][|a| - 2] == a[|a| - 1]
  {
  }

  function AllQuoted(args: seq<string>): (r: seq<string>)
    ensures |r| == |args| && forall i :: 0 <= i < |args| ==> r[i] == "\"" + Escaped(args[i]) + "\""
  {
    seq(|args|, i requires 0 <= i < |args| => "\"" + Escaped(args[i]) + "\"")
  }

  /** The command line is the quoted arguments with blanks between them. */
  lemma {:induction false} CommandIsJoined(args: seq<string>)
    ensures Command(args) == Joined(AllQuoted(args), ' ')
    ensures args != [] ==> Tail(args) == " " + Joined(AllQuoted(args), ' ')
  {
    hide Escaped, Joined;
    if args != [] {
      CommandIsJoined(args[1..]);
      assert AllQuoted(args) == ["\"" + Escaped(args[0]) + "\""] + AllQuoted(args[1..]);
      JoinedCons("\"" + Escaped(args[0]) + "\"", AllQuoted(args[1..]), ' ');
    } else {
      JoinedNothing();
    }
  }

  lemma JoinedNothing()
    ensures Joined([], ' ') == ""
  {
  }

  // ----- reading the environment back -----

  /** The entries of a block: up to the first empty one. */
  function UpToEmpty(ps: seq<string>): seq<string> {
    if ps == [] || ps[0] == "" then [] else [ps[0]] + UpToEmpty(ps[1..])
  }

  function ReadBlock(block: string): seq<string> {
    UpToEmpty(Pieces(block, '\0'))
  }

  lemma {:induction false} PiecesOfBlock(env: seq<string>)
    requires FreeOf(env, NUL)
    ensures Pieces(Block(env), NUL) == env + ["", "", ""]
  {
    if env == [] {
      var three: string, two: string, one: string := [NUL, NUL], [NUL], [];
      assert three[1..] == two && two[1..] == one;
      assert Pieces(one, NUL) == [""] && Pieces(two, NUL) == ["", ""];
    } else {
      PiecesOfBlock(env[1..]);
      PiecesOfOne(env[0], NUL);
      PiecesConcat(env[0], Block(env[1..]), NUL);
      assert env == [env[0]] + env[1..];
    }
  }

  lemma {:induction false} UpToEmptyOfPadded(env: seq<string>, more: seq<string>)
    requires more != [] && more[0] == ""
    ensures UpToEmpty(env + more) == env <==> "" !in env
    ensures |UpToEmpty(env + more)| <= |env|
  {
    if env == [] {
      assert env + more == more;
    } else {
      assert (env + more)[1..] == env[1..] + more;
      UpToEmptyOfPadded(env[1..], more);
      assert env == [env[0]] + env[1..];
    }
  }

  /** Every entry is terminated and two terminators follow. A process reads its environment
      back exactly if no entry is empty: an empty entry looks like the end of the block. */
  lemma {:induction false} EnvironmentReadsBackExactly(env: seq<string>, block: string)
    requires FreeOf(env, '\0') && block == Block(env)
    ensures ReadBlock(block) == env <==> "" !in env
    ensures Pieces(block, '\0') == env + ["", "", ""]
  {
    PiecesOfBlock(env);
    UpToEmptyOfPadded(env, ["", "", ""]);
  }

  // ----- no two command lines are the same -----

  lemma {:induction false} QuotesAreEscaped(s: string)
    ensures forall i :: 0 <= i < |Escaped(s)| && Escaped(s)[i] == QUOTE ==> i > 0 && Escaped(s)[i - 1] == BACKSLASH
  {
    if s != "" {
      QuotesAreEscaped(s[1..]);
      var rest := Escaped(s[1..]);
      var head := if NeedsEscape(s) then [BACKSLASH, s[0]] else [s[0]];
      assert Escaped(s) == head + rest;
      forall i | 0 <= i < |Escaped(s)| && Escaped(s)[i] == QUOTE
        ensures i > 0 && Escaped(s)[i - 1] == BACKSLASH
      {
        if i >= |head| {
          assert rest[i - |head|] == QUOTE;
          assert rest[i - |head| - 1] == Escaped(s)[i - 1];
        }
      }
    }
  }

  lemma {:induction false} EscapedCons(s: string)
    requires s != ""
    ensures NeedsEscape(s) ==> Escaped(s) == [BACKSLASH, s[0]] + Escaped(s[1..])
    ensures !NeedsEscape(s) ==> Escaped(s) == [s[0]] + Escaped(s[1..])
  {
  }

  /** Two backslashes and a quote can only come from what was begun before. */
  lemma {:induction false} NeverTwoBackslashes(s: string)
    requires |Escaped(s)| >= 3
    ensures !(Escaped(s)[0] == Escaped(s)[1] == BACKSLASH && Escaped(s)[2] == QUOTE)
  {
    hide Escaped;
    EscapedNothing();
    EscapedCons(s);
    var t := s[1..];
    if s[0] == BACKSLASH && t != "" {
      EscapedCons(t);
      QuotesAreEscaped(t[1..]);
    }
  }

  lemma {:induction false} EscapedIsInjective(a: string, b: string)
    requires Escaped(a) == Escaped(b)
    ensures a == b
  {
    hide Escaped;
    EscapedNothing();
    if a != "" && b != "" {
      EscapedCons(a);
      EscapedCons(b);
      SameHead(a, b);
      assert Escaped(a[1..]) == Escaped(b[1..]) by {
        var n := if NeedsEscape(a) then 2 else 1;
        assert Escaped(a)[n..] == Escaped(a[1..]) && Escaped(b)[n..] == Escaped(b[1..]);
      }
      EscapedIsInjective(a[1..], b[1..]);
      assert a == [a[0]] + a[1..] && b == [b[0]] + b[1..];
    } else if a != "" {
      EscapedCons(a);
    } else if b != "" {
      EscapedCons(b);
    }
  }

  lemma {:induction false} SameHead(a: string, b: string)
    requires a != "" && b != "" && Escaped(a) == Escaped(b)
    ensures a[0] == b[0] && NeedsEscape(a) == NeedsEscape(b)
  {
    hide Escaped;
    EscapedCons(a);
    EscapedCons(b);
    if NeedsEscape(a) && !NeedsEscape(b) {
      EscapedHeadsDiffer(a, b);
    } else if NeedsEscape(b) && !NeedsEscape(a) {
      EscapedHeadsDiffer(b, a);
    } else {
      var n := if NeedsEscape(a) then 1 else 0;
      assert Escaped(a)[n] == a[0] && Escaped(b)[n] == b[0];
    }
  }

  lemma {:induction false} EscapedHeadsDiffer(a: string, b: string)
    requires a != "" && b != "" && NeedsEscape(a) && !NeedsEscape(b)
    ensures Escaped(a) != Escaped(b)
  {
    hide Escaped;
    EscapedCons(a);
    EscapedCons(b);
    var rest := Escaped(b[1..]);
    assert Escaped(b)[1..] == rest;
    QuotesAreEscaped(b[1..]);
    if a[0] == BACKSLASH {
      EscapedCons(a[1..]);
      assert Escaped(a)[1] == Escaped(a)[2] == BACKSLASH && Escaped(a)[3] == QUOTE;
      if |rest| >= 3 {
        NeverTwoBackslashes(b[1..]);
      }
    } else {
      assert Escaped(a)[1] == QUOTE;
    }
  }

  /** If a blank and a quote follow directly, the argument is just the blank. */
  lemma {:induction false} BlankThenQuote(y: string, more: string)
    requires var s := Escaped(y) + [QUOTE] + more; |s| > 1 && s[0] == ' ' && s[1] == QUOTE
    ensures Escaped(y) == " "
  {
    hide Escaped;
    QuotesAreEscaped(y);
    var s := Escaped(y) + [QUOTE] + more;
    assert forall i :: 0 <= i < |Escaped(y)| ==> s[i] == Escaped(y)[i];
    assert s[|Escaped(y)|] == QUOTE;
  }

  lemma {:induction false} SwapRoles(y: string, xs: seq<string>, b: string, bs: seq<string>)
    ensures Escaped(y) + [QUOTE] + Tail(xs) == Tail([b] + bs) ==> Escaped(b) + [QUOTE] + Tail(bs) == Tail(xs)
  {
    hide Escaped;
    assert ([b] + bs)[1..] == bs;
    var left, next := Escaped(y) + [QUOTE] + Tail(xs), Escaped(b) + [QUOTE] + Tail(bs);
    assert Tail([b] + bs) == [' ', QUOTE] + next;
    if left == Tail([b] + bs) {
      BlankThenQuote(y, Tail(xs));
      assert left == [' ', QUOTE] + Tail(xs);
      assert left[2..] == Tail(xs);
      assert Tail([b] + bs)[2..] == next;
    }
  }

  /** One command line cannot be inside an argument where the other has finished one: they
      would stay out of step for ever. */
  lemma {:induction false} OutOfStep(y: string, xs: seq<string>, bs: seq<string>)
    ensures Escaped(y) + [QUOTE] + Tail(xs) != Tail(bs)
    decreases |xs| + |bs|
  {
    hide Escaped;
    if bs != [] {
      hide Tail;
      assert bs == [bs[0]] + bs[1..];
      SwapRoles(y, xs, bs[0], bs[1..]);
      OutOfStep(bs[0], bs[1..], xs);
    }
  }

  /** If one of two command lines finishes an argument earlier, they are out of step. */
  lemma {:induction false} FinishedEarlier(a: string, b: string, xs: seq<string>, ys: seq<string>)
    ensures |Escaped(a)| < |Escaped(b)| && Escaped(a) + [QUOTE] + Tail(xs) == Escaped(b) + [QUOTE] + Tail(ys) ==>
            xs != [] && Escaped(xs[0]) + [QUOTE] + Tail(xs[1..]) == Tail(ys)
  {
    hide Escaped;
    var p := |Escaped(a)|;
    var s := Escaped(a) + [QUOTE] + Tail(xs);
    if xs == [] {
      return;
    }
    var next := Escaped(xs[0]) + [QUOTE] + Tail(xs[1..]);
    assert Tail(xs) == [' ', QUOTE] + next;
    if p < |Escaped(b)| && s == Escaped(b) + [QUOTE] + Tail(ys) {
      hide Tail;
      var w := Escaped(b)[p + 1..];
      RestOfB(Escaped(a), Escaped(b), Tail(xs), Tail(ys));
      QuotesAreEscaped(b);
      assert forall i :: 0 <= i < |w| ==> w[i] == Escaped(b)[p + 1 + i];
      NoQuoteBehindBlank(w, next, Tail(ys));
      assert Tail(xs)[2..] == next && (w + [QUOTE] + Tail(ys))[2..] == Tail(ys);
    }
  }

  lemma RestOfB(a: string, b: string, x: string, y: string)
    requires |a| < |b| && a + [QUOTE] + x == b + [QUOTE] + y
    ensures x == b[|a| + 1..] + [QUOTE] + y
  {
    assert (a + [QUOTE] + x)[|a| + 1..] == x;
    assert (b + [QUOTE] + y)[|a| + 1..] == b[|a| + 1..] + [QUOTE] + y;
  }

  lemma NoQuoteBehindBlank(w: string, next: string, y: string)
    requires [' ', QUOTE] + next == w + [QUOTE] + y
    requires forall i :: 0 < i < |w| && w[i] == QUOTE ==> w[i - 1] == BACKSLASH
    ensures w == " "
  {
    var s := w + [QUOTE] + y;
    assert s[0] == ' ' && s[1] == QUOTE && s[|w|] == QUOTE;
    assert forall i :: 0 <= i < |w| ==> s[i] == w[i];
  }

  lemma {:induction false} SameFirst(a: string, b: string, xs: seq<string>, ys: seq<string>)
    requires Escaped(a) + [QUOTE] + Tail(xs) == Escaped(b) + [QUOTE] + Tail(ys)
    ensures a == b && Tail(xs) == Tail(ys)
  {
    hide Escaped, Tail;
    FinishedEarlier(a, b, xs, ys);
    FinishedEarlier(b, a, ys, xs);
    if xs != [] {
      OutOfStep(xs[0], xs[1..], ys);
    }
    if ys != [] {
      OutOfStep(ys[0], ys[1..], xs);
    }
    var s, n := Escaped(a) + [QUOTE] + Tail(xs), |Escaped(a)|;
    assert s[..n] == Escaped(a) && s[..n] == Escaped(b);
    assert s[n + 1..] == Tail(xs) && s[n + 1..] == Tail(ys);
    EscapedIsInjective(a, b);
  }

  lemma {:induction false} TailIsInjective(xs: seq<string>, ys: seq<string>)
    requires Tail(xs) == Tail(ys)
    ensures xs == ys
  {
    hide Escaped;
    if xs != [] && ys != [] {
      assert Tail(xs)[2..] == Escaped(xs[0]) + [QUOTE] + Tail(xs[1..]);
      assert Tail(ys)[2..] == Escaped(ys[0]) + [QUOTE] + Tail(ys[1..]);
      SameFirst(xs[0], ys[0], xs[1..], ys[1..]);
      TailIsInjective(xs[1..], ys[1..]);
      assert xs == [xs[0]] + xs[1..] && ys == [ys[0]] + ys[1..];
    }
  }

  /** Different arguments give different command lines. */
  lemma CommandIsInjective(xs: seq<string>, ys: seq<string>)
    ensures Command(xs) == Command(ys) <==> xs == ys
  {
    hide Escaped, Tail;
    if Command(xs) == Command(ys) && xs != [] && ys != [] {
      assert Command(xs)[1..] == Escaped(xs[0]) + [QUOTE] + Tail(xs[1..]);
      assert Command(ys)[1..] == Escaped(ys[0]) + [QUOTE] + Tail(ys[1..]);
      SameFirst(xs[0], ys[0], xs[1..], ys[1..]);
      TailIsInjective(xs[1..], ys[1..]);
      assert xs == [xs[0]] + xs[1..] && ys == [ys[0]] + ys[1..];
    }
  }
}
