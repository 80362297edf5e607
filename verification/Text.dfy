/** Cutting text at a delimiter and putting it together again, the way the
    installer reads and writes every line-based file. */
module Text {

  // ----- cutting -----

  /** The pieces between the delimiters, empty ones included. */
  function Pieces(s: string, d: char): (ps: seq<string>)
    ensures |ps| >= 1
  {
    if s == [] then [[]]
    else if s[0] == d then [[]] + Pieces(s[1..], d)
    else var rest := Pieces(s[1..], d); [[s[0]] + rest[0]] + rest[1..]
  }

  /** std::views::split: like Pieces, but an empty text has no pieces at all. */
  function Split(s: string, d: char): seq<string> {
    if s == [] then [] else Pieces(s, d)
  }

  function NonEmpty(ps: seq<string>): seq<string> {
    if ps == [] then [] else (if ps[0] == [] then [] else [ps[0]]) + NonEmpty(ps[1..])
  }

  /** make_split_view: the non-empty pieces. */
  function Fields(s: string, d: char): seq<string> {
    NonEmpty(Split(s, d))
  }

  /** join: the pieces with a delimiter between any two of them. */
  function Joined(ps: seq<string>, d: char): string {
    if ps == [] then [] else if |ps| == 1 then ps[0] else ps[0] + [d] + Joined(ps[1..], d)
  }

  predicate FreeOf(ps: seq<string>, d: char) {
    forall i :: 0 <= i < |ps| ==> d !in ps[i]
  }

  lemma {:induction false} PiecesAreFree(s: string, d: char)
    ensures FreeOf(Pieces(s, d), d)
  {
    if s != [] {
      PiecesAreFree(s[1..], d);
    }
  }

  lemma {:induction false} PiecesOfOne(s: string, d: char)
    requires d !in s
    ensures Pieces(s, d) == [s]
  {
    if s != [] {
      PiecesOfOne(s[1..], d);
      assert [s[0]] + s[1..] == s;
    }
  }

  /** A delimiter cuts a text into independent halves. */
  lemma {:induction false} PiecesConcat(a: string, b: string, d: char)
    ensures Pieces(a + [d] + b, d) == Pieces(a, d) + Pieces(b, d)
  {
    var s := a + [d] + b;
    if a == [] {
      assert s[1..] == b;
    } else {
      assert s[1..] == a[1..] + [d] + b;
      PiecesConcat(a[1..], b, d);
    }
  }

  lemma {:induction false} NonEmptyConcat(ps: seq<string>, qs: seq<string>)
    ensures NonEmpty(ps + qs) == NonEmpty(ps) + NonEmpty(qs)
  {
    if ps == [] {
      assert ps + qs == qs;
    } else {
      assert (ps + qs)[1..] == ps[1..] + qs;
      NonEmptyConcat(ps[1..], qs);
    }
  }

  lemma {:induction false} FieldsAreNonEmptyPieces(s: string, d: char)
    ensures Fields(s, d) == NonEmpty(Pieces(s, d))
  {
  }

  lemma FieldsConcat(a: string, b: string, d: char)
    ensures Fields(a + [d] + b, d) == Fields(a, d) + Fields(b, d)
  {
    PiecesConcat(a, b, d);
    NonEmptyConcat(Pieces(a, d), Pieces(b, d));
    FieldsAreNonEmptyPieces(a, d);
    FieldsAreNonEmptyPieces(b, d);
    FieldsAreNonEmptyPieces(a + [d] + b, d);
  }

  predicate Clean(ps: seq<string>, d: char) {
    FreeOf(ps, d) && [] !in ps
  }

  lemma {:induction false} NonEmptyKeeps(ps: seq<string>, d: char)
    ensures FreeOf(ps, d) ==> Clean(NonEmpty(ps), d)
    ensures [] !in ps ==> NonEmpty(ps) == ps
  {
    if ps != [] {
      NonEmptyKeeps(ps[1..], d);
      if FreeOf(ps, d) {
        assert FreeOf(ps[1..], d);
      }
      assert ps == [ps[0]] + ps[1..];
    }
  }

  lemma FieldsOfOne(s: string, d: char)
    requires s != "" && d !in s
    ensures Fields(s, d) == [s]
  {
    PiecesOfOne(s, d);
    NonEmptyKeeps([s], d);
  }

  // ----- cutting what was joined, joining what was cut -----

  lemma {:induction false} JoinedCons(p: string, ps: seq<string>, d: char)
    ensures Joined([p] + ps, d) == if ps == [] then p else p + [d] + Joined(ps, d)
  {
    assert ([p] + ps)[1..] == ps;
  }

  lemma {:induction false} JoinedPieces(s: string, d: char)
    ensures Joined(Pieces(s, d), d) == s
  {
    if s != [] {
      hide Joined;
      JoinedPieces(s[1..], d);
      var rest := Pieces(s[1..], d);
      assert rest == [rest[0]] + rest[1..] && s == [s[0]] + s[1..];
      if s[0] == d {
        JoinedCons([], rest, d);
        assert [] + [d] + s[1..] == s;
      } else {
        JoinedCons(rest[0], rest[1..], d);
        JoinedCons([s[0]] + rest[0], rest[1..], d);
        assert rest[1..] != [] ==>
          [s[0]] + rest[0] + [d] + Joined(rest[1..], d) == [s[0]] + (rest[0] + [d] + Joined(rest[1..], d));
      }
    }
  }

  lemma {:induction false} JoinedFreeOf(ps: seq<string>, d: char, c: char)
    requires c != d
    ensures c !in Joined(ps, d) <==> FreeOf(ps, c)
  {
    if ps != [] {
      JoinedCons(ps[0], ps[1..], d);
      assert [ps[0]] + ps[1..] == ps;
      if |ps| > 1 {
        JoinedFreeOf(ps[1..], d, c);
      }
      assert FreeOf(ps, c) <==> c !in ps[0] && FreeOf(ps[1..], c) by {
        if c !in ps[0] && FreeOf(ps[1..], c) {
          forall i | 0 <= i < |ps| ensures c !in ps[i] {
            assert i > 0 ==> ps[i] == ps[1..][i - 1];
          }
        }
      }
    }
  }

  lemma {:induction false} PiecesStayFree(s: string, d: char, c: char)
    requires c !in s
    ensures FreeOf(Pieces(s, d), c)
  {
    JoinedPieces(s, d);
    if c != d {
      JoinedFreeOf(Pieces(s, d), d, c);
    } else {
      PiecesAreFree(s, d);
    }
  }

  lemma {:induction false} PiecesOfJoined(ps: seq<string>, d: char)
    requires ps != [] && FreeOf(ps, d)
    ensures Pieces(Joined(ps, d), d) == ps
  {
    PiecesOfOne(ps[0], d);
    if |ps| > 1 {
      PiecesOfJoined(ps[1..], d);
      PiecesConcat(ps[0], Joined(ps[1..], d), d);
    }
  }

  /** Splitting keeps empty pieces, so only a list of one empty string is lost. */
  lemma {:induction false} SplitOfJoined(ps: seq<string>, d: char)
    ensures Split(Joined(ps, d), d) == ps <==> FreeOf(ps, d) && ps != [[]]
  {
    PiecesAreFree(Joined(ps, d), d);
    if FreeOf(ps, d) && ps != [] {
      PiecesOfJoined(ps, d);
    }
  }

  lemma SplitIsSplittable(s: string, d: char)
    ensures FreeOf(Split(s, d), d) && Split(s, d) != [[]]
  {
    PiecesAreFree(s, d);
    JoinedPieces(s, d);
  }

  /** A record survives being joined and cut again exactly when no field is empty
      or contains the delimiter. */
  lemma {:induction false} FieldsOfJoined(ps: seq<string>, d: char)
    ensures Fields(Joined(ps, d), d) == ps <==> Clean(ps, d)
  {
    PiecesAreFree(Joined(ps, d), d);
    NonEmptyKeeps(Pieces(Joined(ps, d), d), d);
    FieldsAreNonEmptyPieces(Joined(ps, d), d);
    if Clean(ps, d) && ps != [] {
      PiecesOfJoined(ps, d);
    }
  }

  /** Joining what was cut is a normal form. */
  lemma {:induction false} NormalForm(s: string, d: char)
    ensures var t := Joined(Fields(s, d), d);
            Fields(t, d) == Fields(s, d) && Joined(Fields(t, d), d) == t
  {
    PiecesAreFree(s, d);
    NonEmptyKeeps(Pieces(s, d), d);
    FieldsAreNonEmptyPieces(s, d);
    FieldsOfJoined(Fields(s, d), d);
  }

  // ----- the loops of string_utils.cpp -----

  function Reversed<T>(xs: seq<T>): (r: seq<T>)
    ensures |r| == |xs|
    ensures forall i :: 0 <= i < |xs| ==> r[i] == xs[|xs| - 1 - i]
  {
    seq(|xs|, i requires 0 <= i < |xs| => xs[|xs| - 1 - i])
  }

  /** make_multiline, cutting a text into lines. */
  method MakeMultiline(str: string, reverse: bool, delim: char) returns (lines: seq<string>)
    ensures lines == if reverse then Reversed(Fields(str, delim)) else Fields(str, delim)
  {
    lines := [];
    var view := Fields(str, delim);
    for i := 0 to |view|
      invariant lines == view[..i]
    {
      lines := lines + [view[i]];
    }
    if reverse {
      lines := Reversed(lines);
    }
  }

  lemma {:induction false} JoinedGrows(ps: seq<string>, p: string, d: char)
    requires ps != []
    ensures Joined(ps + [p], d) == Joined(ps, d) + [d] + p
  {
    if |ps| == 1 {
      assert (ps + [p])[1..] == [p];
    } else {
      assert (ps + [p])[1..] == ps[1..] + [p];
      JoinedGrows(ps[1..], p, d);
    }
  }

  /** join: a delimiter follows every line but the last. */
  method Join(lines: seq<string>, delim: char) returns (result: string)
    ensures result == Joined(lines, delim)
  {
    result := [];
    var i := 0;
    while i < |lines|
      invariant 0 <= i <= |lines|
      invariant result == Joined(lines[..i], delim) + (if 0 < i < |lines| then [delim] else [])
    {
      assert lines[..i + 1] == lines[..i] + [lines[i]];
      if i > 0 {
        JoinedGrows(lines[..i], lines[i], delim);
      }
      result := result + lines[i];
      if i < |lines| - 1 {
        result := result + [delim];
      }
      i := i + 1;
    }
    assert lines[..i] == lines;
  }

  // ----- searching -----

  /** std::string::find: the position of the first occurrence, or |s| + 1. */
  function Find(s: string, t: string): (i: nat)
    ensures i <= |s| + 1
    ensures i <= |s| ==> t <= s[i..]
    ensures forall j :: 0 <= j < i && j <= |s| ==> !(t <= s[j..])
  {
    if t <= s then assert s[0..] == s; 0
    else if s == [] then 1
    else
      var i := 1 + Find(s[1..], t);
      assert s[0..] == s;
      assert forall j :: 0 < j <= |s| ==> s[j..] == s[1..][j - 1..];
      i
  }

  // ----- padding -----

  function Spaces(n: nat): (s: string)
    ensures |s| == n && forall i :: 0 <= i < n ==> s[i] == ' '
  {
    seq(n, _ => ' ')
  }

  /** A format field {:<width}: fills up with spaces on the right. */
  function Padded(s: string, width: nat): string {
    s + Spaces(if |s| < width then width - |s| else 0)
  }

  lemma FieldsOfNothing(d: char)
    ensures Fields("", d) == []
  {
  }

  lemma {:induction false} FieldsOfSpaces(n: nat)
    ensures Fields(Spaces(n), ' ') == []
  {
    if n > 0 {
      hide Fields;
      FieldsOfSpaces(n - 1);
      assert Spaces(n) == [] + [' '] + Spaces(n - 1);
      FieldsConcat([], Spaces(n - 1), ' ');
      FieldsOfNothing(' ');
    } else {
      assert Spaces(n) == "";
    }
  }

  /** Padding does not change what is read. */
  lemma FieldsOfPadded(s: string, width: nat)
    ensures Fields(Padded(s, width), ' ') == Fields(s, ' ')
  {
    hide Fields;
    if |s| < width {
      var n := width - |s|;
      assert Padded(s, width) == s + [' '] + Spaces(n - 1);
      FieldsConcat(s, Spaces(n - 1), ' ');
      FieldsOfSpaces(n - 1);
    } else {
      assert Padded(s, width) == s;
    }
  }

  /** A field that fits its width leaves the next one at a fixed place. */
  lemma PaddedFits(s: string, width: nat, rest: string)
    requires |s| <= width
    ensures var t := Padded(s, width) + " " + rest;
            |t| == width + 1 + |rest| && t[..|s|] == s && t[width + 1..] == rest
  {
  }

  lemma TwoPaddedFit(a: string, i: nat, b: string, j: nat, rest: string)
    requires |a| <= i && |b| <= j
    ensures var t := Padded(a, i) + " " + (Padded(b, j) + " " + rest);
            && |t| == i + j + 2 + |rest| && t[..|a|] == a
            && t[i + 1..i + 1 + |b|] == b && t[i + j + 2..] == rest
  {
    hide Padded;
    PaddedFits(b, j, rest);
    var behind := Padded(b, j) + " " + rest;
    PaddedFits(a, i, behind);
    var t := Padded(a, i) + " " + behind;
    assert t[i + 1..][..|b|] == t[i + 1..i + 1 + |b|];
    assert t[i + 1..][j + 1..] == t[i + j + 2..];
  }

  predicate Word(s: string) {
    s != "" && ' ' !in s
  }

  lemma FieldsAreWords(s: string)
    ensures forall f :: f in Fields(s, ' ') ==> Word(f)
  {
    PiecesAreFree(s, ' ');
    NonEmptyKeeps(Pieces(s, ' '), ' ');
    FieldsAreNonEmptyPieces(s, ' ');
  }

  // ----- characters and lines -----

  /** The C locale's tolower. */
  function ToLower(c: char): char {
    if 'A' <= c <= 'Z' then c - 'A' + 'a' else c
  }

  /** Every capital letter, and nothing else, is replaced by the one 32 places further on. */
  function Lowered(s: string): (r: string)
    ensures |r| == |s|
    ensures forall i :: 0 <= i < |s| ==> r[i] as int == s[i] as int + (if 'A' <= s[i] <= 'Z' then 32 else 0)
  {
    seq(|s|, i requires 0 <= i < |s| => ToLower(s[i]))
  }

  predicate OneLine(s: string) {
    forall i :: 0 <= i < |s| ==> s[i] != '\n'
  }

  function FirstLine(s: string): string {
    Pieces(s, '\n')[0]
  }

  lemma OneLineHasNoNewline(s: string)
    ensures OneLine(s) <==> '\n' !in s
  {
  }

  // ----- lists of names -----

  ghost predicate NoDuplicates(h: seq<string>) {
    forall i, j :: 0 <= i < j < |h| ==> h[i] != h[j]
  }

  ghost predicate Disjoint(a: seq<string>, b: seq<string>) {
    forall x :: x in a ==> x !in b
  }

  lemma DistinctConcat(a: seq<string>, b: seq<string>)
    requires NoDuplicates(a) && NoDuplicates(b) && Disjoint(a, b)
    ensures NoDuplicates(a + b)
  {
    forall i, j | 0 <= i < j < |a + b| ensures (a + b)[i] != (a + b)[j] {
      if i < |a| <= j {
        assert a[i] in a && b[j - |a|] in b;
      }
    }
  }
}
