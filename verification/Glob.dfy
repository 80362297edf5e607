/** doctest's wildcard filters: a greedy matcher that only ever backtracks to the
    last star, against the declarative meaning of a wildcard pattern. */
module Glob {
  import opened Text

  predicate SameChar(a: char, b: char, caseSensitive: bool) {
    if caseSensitive then a == b else ToLower(a) == ToLower(b)
  }

  /** One pattern character other than a star accepts one character. */
  predicate Accepts(w: char, c: char, caseSensitive: bool) {
    SameChar(w, c, caseSensitive) || w == '?'
  }

  /** The meaning of a pattern: a star stands for any string, a question mark
      for any one character, every other character for itself. */
  ghost predicate Matches(str: string, wild: string, cs: bool)
    decreases wild
  {
    if wild == [] then str == []
    else if wild[0] == '*' then exists k :: 0 <= k <= |str| && Matches(str[k..], wild[1..], cs)
    else str != [] && Accepts(wild[0], str[0], cs) && Matches(str[1..], wild[1..], cs)
  }

  /** The same meaning by positions, which is how the matcher sees it. */
  ghost predicate MatchesAt(str: string, s: nat, wild: string, w: nat, cs: bool)
    requires s <= |str| && w <= |wild|
    decreases |wild| - w
  {
    if w == |wild| then s == |str|
    else if wild[w] == '*' then
      var next := w + 1;
      exists j :: s <= j <= |str| && MatchesAt(str, j, wild, next, cs)
    else s < |str| && Accepts(wild[w], str[s], cs) && MatchesAt(str, s + 1, wild, w + 1, cs)
  }

  /** Some suffix of str that starts no earlier than `from` matches. */
  ghost predicate MatchesFrom(str: string, from: nat, wild: string, w: nat, cs: bool)
    requires w <= |wild|
  {
    exists j :: from <= j <= |str| && MatchesAt(str, j, wild, w, cs)
  }

  lemma {:induction false} StarMatchesAnySuffix(str: string, s: nat, wild: string, w: nat, cs: bool)
    requires s <= |str| && w < |wild| && wild[w] == '*'
    ensures MatchesAt(str, s, wild, w, cs) <==> MatchesFrom(str, s, wild, w + 1, cs)
  {
  }

  lemma {:induction false} MatchesStar(str: string, wild: string, cs: bool)
    requires wild != "" && wild[0] == '*'
    ensures Matches(str, wild, cs) <==> exists k :: 0 <= k <= |str| && Matches(str[k..], wild[1..], cs)
  {
  }

  /** Positions and suffixes agree behind a star if they agree wherever it may end. */
  lemma PositionsAgreeAtStar(str: string, s: nat, wild: string, w: nat, cs: bool)
    requires s <= |str| && w < |wild| && wild[w] == '*'
    requires forall j :: s <= j <= |str| ==>
               (MatchesAt(str, j, wild, w + 1, cs) <==> Matches(str[j..], wild[w + 1..], cs))
    ensures MatchesAt(str, s, wild, w, cs) <==> Matches(str[s..], wild[w..], cs)
  {
    hide Matches, MatchesAt;
    var tail, rest := str[s..], wild[w..];
    assert rest[1..] == wild[w + 1..];
    StarMatchesAnySuffix(str, s, wild, w, cs);
    MatchesStar(tail, rest, cs);
    if MatchesFrom(str, s, wild, w + 1, cs) {
      var j :| s <= j <= |str| && MatchesAt(str, j, wild, w + 1, cs);
      assert tail[j - s..] == str[j..];
    }
    if Matches(tail, rest, cs) {
      var k :| 0 <= k <= |tail| && Matches(tail[k..], rest[1..], cs);
      assert tail[k..] == str[s + k..];
      assert MatchesAt(str, s + k, wild, w + 1, cs);
    }
  }

  lemma {:induction false} PositionsAgree(str: string, s: nat, wild: string, w: nat, cs: bool)
    requires s <= |str| && w <= |wild|
    ensures MatchesAt(str, s, wild, w, cs) <==> Matches(str[s..], wild[w..], cs)
    decreases |wild| - w
  {
    if w < |wild| {
      if wild[w] == '*' {
        hide Matches, MatchesAt;
        forall j | s <= j <= |str|
          ensures MatchesAt(str, j, wild, w + 1, cs) <==> Matches(str[j..], wild[w + 1..], cs)
        {
          PositionsAgree(str, j, wild, w + 1, cs);
        }
        PositionsAgreeAtStar(str, s, wild, w, cs);
      } else if s < |str| {
        assert str[s..][1..] == str[s + 1..] && wild[w..][1..] == wild[w + 1..];
        PositionsAgree(str, s + 1, wild, w + 1, cs);
      }
    }
  }

  /** The star-free segment wild[m..w] accepts the w - m characters of str from c on. */
  ghost predicate Literal(str: string, c: nat, wild: string, m: nat, w: nat, cs: bool) {
    && m <= w <= |wild| && c + w - m <= |str|
    && forall i :: m <= i < w ==> wild[i] != '*' && Accepts(wild[i], str[c + i - m], cs)
  }

  /** A literal segment that accepts can be taken off both sides. */
  lemma {:induction false} LiteralPrefix(str: string, c: nat, wild: string, m: nat, w: nat, cs: bool)
    requires Literal(str, c, wild, m, w, cs)
    ensures MatchesAt(str, c, wild, m, cs) <==> MatchesAt(str, c + w - m, wild, w, cs)
    decreases w - m
  {
    if m < w {
      assert Accepts(wild[m], str[c + m - m], cs);
      assert Literal(str, c + 1, wild, m + 1, w, cs);
      LiteralPrefix(str, c + 1, wild, m + 1, w, cs);
    }
  }

  /** Whatever a star-free segment is matched against is at least as long. */
  lemma {:induction false} LiteralConsumes(str: string, c: nat, wild: string, m: nat, w: nat, cs: bool)
    requires m <= w <= |wild| && c <= |str| && (forall i :: m <= i < w ==> wild[i] != '*')
    requires MatchesAt(str, c, wild, m, cs)
    ensures c + w - m <= |str| && MatchesAt(str, c + w - m, wild, w, cs)
    decreases w - m
  {
    if m < w {
      LiteralConsumes(str, c + 1, wild, m + 1, w, cs);
    }
  }

  /** The next star makes every earlier choice equally good, so the matcher may
      forget how the segment before it was placed. */
  lemma NewStar(str: string, c: nat, wild: string, m: nat, w: nat, cs: bool)
    requires Literal(str, c, wild, m, w, cs) && w < |wild| && wild[w] == '*'
    ensures MatchesFrom(str, c, wild, m, cs) <==> MatchesFrom(str, c + w - m, wild, w + 1, cs)
  {
    LiteralPrefix(str, c, wild, m, w, cs);
    StarMatchesAnySuffix(str, c + w - m, wild, w, cs);
    if MatchesFrom(str, c, wild, m, cs) {
      var j :| c <= j <= |str| && MatchesAt(str, j, wild, m, cs);
      LiteralConsumes(str, j, wild, m, w, cs);
      StarMatchesAnySuffix(str, j + w - m, wild, w, cs);
    }
  }

  /** A mismatch rules out the current placement of the last segment, and only that. */
  lemma Backtrack(str: string, c: nat, wild: string, m: nat, w: nat, cs: bool)
    requires Literal(str, c, wild, m, w, cs) && c + w - m < |str|
    requires w == |wild| || (wild[w] != '*' && !Accepts(wild[w], str[c + w - m], cs))
    ensures MatchesFrom(str, c, wild, m, cs) <==> MatchesFrom(str, c + 1, wild, m, cs)
  {
    LiteralPrefix(str, c, wild, m, w, cs);
  }

  ghost predicate AllStars(wild: string, w: nat) {
    forall i :: w <= i < |wild| ==> wild[i] == '*'
  }

  lemma {:induction false} EndMatchesStars(str: string, wild: string, w: nat, cs: bool)
    requires w <= |wild|
    ensures MatchesAt(str, |str|, wild, w, cs) <==> AllStars(wild, w)
    decreases |wild| - w
  {
    if w < |wild| {
      EndMatchesStars(str, wild, w + 1, cs);
    }
  }

  /** Once the string is used up, only stars may be left of the pattern. */
  lemma {:induction false} AtTheEnd(str: string, c: nat, wild: string, m: nat, w: nat, cs: bool)
    requires Literal(str, c, wild, m, w, cs) && c + w - m == |str|
    ensures MatchesFrom(str, c, wild, m, cs) <==> AllStars(wild, w)
    ensures MatchesAt(str, c, wild, m, cs) <==> AllStars(wild, w)
  {
    LiteralPrefix(str, c, wild, m, w, cs);
    EndMatchesStars(str, wild, w, cs);
    if MatchesFrom(str, c, wild, m, cs) {
      var j :| c <= j <= |str| && MatchesAt(str, j, wild, m, cs);
      LiteralConsumes(str, j, wild, m, w, cs);
    }
  }

  // ----- what patterns mean -----

  predicate NoWildcards(wild: string) {
    forall i :: 0 <= i < |wild| ==> wild[i] != '*' && wild[i] != '?'
  }

  /** A pattern without wildcards matches itself and nothing else. */
  lemma {:induction false} PlainMatchesItself(str: string, wild: string)
    requires NoWildcards(wild)
    ensures Matches(str, wild, true) <==> str == wild
  {
    if wild != [] && str != [] {
      assert NoWildcards(wild[1..]);
      PlainMatchesItself(str[1..], wild[1..]);
      assert str == [str[0]] + str[1..] && wild == [wild[0]] + wild[1..];
    }
  }

  /** Without case sensitivity, name and pattern are compared as if in lower case. */
  lemma {:induction false} CaseIsIgnored(str: string, wild: string)
    ensures Matches(str, wild, false) <==> Matches(Lowered(str), Lowered(wild), true)
    decreases wild
  {
    if wild != [] {
      var s, w, rest := Lowered(str), Lowered(wild), wild[1..];
      assert w[1..] == Lowered(rest);
      if wild[0] == '*' {
        hide Matches;
        MatchesStar(str, wild, false);
        MatchesStar(s, w, true);
        forall k | 0 <= k <= |str|
          ensures Matches(str[k..], rest, false) <==> Matches(s[k..], w[1..], true)
        {
          assert s[k..] == Lowered(str[k..]);
          CaseIsIgnored(str[k..], rest);
        }
      } else if str != [] {
        assert s[1..] == Lowered(str[1..]);
        CaseIsIgnored(str[1..], rest);
      }
    }
  }

  /** Question marks count characters. */
  lemma {:induction false} QuestionMarksCount(str: string, wild: string, cs: bool)
    requires forall i :: 0 <= i < |wild| ==> wild[i] == '?'
    ensures Matches(str, wild, cs) <==> |str| == |wild|
  {
    if wild != [] && str != [] {
      QuestionMarksCount(str[1..], wild[1..], cs);
    }
  }

  /** A star in front and one behind look for the text between them anywhere. */
  lemma {:induction false} StarsSearch(str: string, wild: string)
    requires NoWildcards(wild)
    ensures Matches(str, "*" + wild + "*", true) <==> exists k :: 0 <= k <= |str| && wild <= str[k..]
  {
    hide Matches;
    var all := "*" + wild + "*";
    assert all[1..] == wild + "*";
    MatchesStar(str, all, true);
    forall k | 0 <= k <= |str|
      ensures Matches(str[k..], all[1..], true) <==> wild <= str[k..]
    {
      PrefixMatches(str[k..], wild);
    }
  }

  lemma {:induction false} PrefixMatches(str: string, wild: string)
    requires NoWildcards(wild)
    ensures Matches(str, wild + "*", true) <==> wild <= str
  {
    if wild == [] {
      assert wild + "*" == "*";
      MatchesStar(str, "*", true);
      assert str[|str|..] == [] && Matches([], "*"[1..], true);
    } else if str != [] {
      assert (wild + "*")[1..] == wild[1..] + "*" && NoWildcards(wild[1..]);
      PrefixMatches(str[1..], wild[1..]);
      assert str == [str[0]] + str[1..] && wild == [wild[0]] + wild[1..];
    }
  }

  // ----- what the matcher knows while it looks at str[s] and wild[w] -----

  /** There was no star yet, and everything so far fits. */
  ghost predicate BeforeStar(str: string, s: nat, wild: string, w: nat, cs: bool) {
    s == w && Literal(str, 0, wild, 0, w, cs)
  }

  /** The segment since the last star fits where it is placed now, and the answer
      hangs on the placements of this segment that are left. */
  ghost predicate AfterStar(str: string, s: nat, wild: string, w: nat, cp: nat, mp: nat, cs: bool) {
    && 0 < cp && Literal(str, cp - 1, wild, mp, w, cs) && cp - 1 + w - mp == s
    && (MatchesAt(str, 0, wild, 0, cs) <==> MatchesFrom(str, cp - 1, wild, mp, cs))
  }

  lemma FirstStar(str: string, s: nat, wild: string, w: nat, cs: bool)
    requires BeforeStar(str, s, wild, w, cs) && w < |wild| && wild[w] == '*'
    ensures AfterStar(str, s, wild, w + 1, s + 1, w + 1, cs)
  {
    LiteralPrefix(str, 0, wild, 0, w, cs);
    StarMatchesAnySuffix(str, s, wild, w, cs);
  }

  lemma FurtherStar(str: string, s: nat, wild: string, w: nat, cp: nat, mp: nat, cs: bool)
    requires AfterStar(str, s, wild, w, cp, mp, cs) && w < |wild| && wild[w] == '*'
    ensures AfterStar(str, s, wild, w + 1, s + 1, w + 1, cs)
  {
    NewStar(str, cp - 1, wild, mp, w, cs);
  }

  lemma {:induction false} FinalStar(str: string, s: nat, wild: string, cp: nat, cs: bool)
    requires AfterStar(str, s, wild, |wild|, cp, |wild|, cs)
    ensures MatchesAt(str, 0, wild, 0, cs)
  {
    assert MatchesAt(str, |str|, wild, |wild|, cs);
  }

  lemma Fits(str: string, s: nat, wild: string, w: nat, cp: nat, mp: nat, cs: bool)
    requires AfterStar(str, s, wild, w, cp, mp, cs) && w < |wild| && s < |str|
    requires wild[w] != '*' && Accepts(wild[w], str[s], cs)
    ensures AfterStar(str, s + 1, wild, w + 1, cp, mp, cs)
  {
  }

  lemma Misfit(str: string, s: nat, wild: string, w: nat, cp: nat, mp: nat, cs: bool)
    requires AfterStar(str, s, wild, w, cp, mp, cs) && s < |str|
    requires w == |wild| || (wild[w] != '*' && !Accepts(wild[w], str[s], cs))
    ensures AfterStar(str, cp, wild, mp, cp + 1, mp, cs)
  {
    Backtrack(str, cp - 1, wild, mp, w, cs);
  }

  /** wildcmp: compares a string with a wildcard pattern. The NUL that ends a C
      string is the end of the sequence here. */
  method WildCmp(str: string, wild: string, caseSensitive: bool) returns (r: bool)
    ensures r <==> Matches(str, wild, caseSensitive)
  {
    PositionsAgree(str, 0, wild, 0, caseSensitive);
    assert str[0..] == str && wild[0..] == wild;
    var s, w := 0, 0;
    while s < |str| && (w == |wild| || wild[w] != '*')
      invariant BeforeStar(str, s, wild, w, caseSensitive)
    {
      if w == |wild| || !Accepts(wild[w], str[s], caseSensitive) {
        LiteralPrefix(str, 0, wild, 0, w, caseSensitive);
        return false;
      }
      w := w + 1;
      s := s + 1;
    }
    if s == |str| {
      AtTheEnd(str, 0, wild, 0, w, caseSensitive);
    } else {
      s, w, r := SearchAfterStar(str, s, wild, w, caseSensitive);
      if r {
        return;
      }
    }
    ghost var end := w;
    while w < |wild| && wild[w] == '*'
      invariant end <= w <= |wild|
      invariant forall i :: end <= i < w ==> wild[i] == '*'
    {
      w := w + 1;
    }
    r := w == |wild|;
  }

  /** The second loop of wildcmp, which starts at the first star. */
  method SearchAfterStar(str: string, s0: nat, wild: string, w0: nat, caseSensitive: bool)
    returns (s: nat, w: nat, matched: bool)
    requires BeforeStar(str, s0, wild, w0, caseSensitive)
    requires s0 < |str| && w0 < |wild| && wild[w0] == '*'
    ensures matched ==> MatchesAt(str, 0, wild, 0, caseSensitive)
    ensures !matched ==> s == |str| && w <= |wild|
    ensures !matched ==> (MatchesAt(str, 0, wild, 0, caseSensitive) <==> AllStars(wild, w))
  {
    s, w := s0, w0;
    var cp, mp := 0, 0;
    FirstStar(str, s, wild, w, caseSensitive);
    while s < |str|
      invariant mp <= w <= |wild| && 0 <= cp <= s + 1 <= |str| + 1
      invariant if mp == 0 then s == s0 && w == w0 else AfterStar(str, s, wild, w, cp, mp, caseSensitive)
      decreases |wild| - mp, |str| - cp, |str| - s
    {
      if w < |wild| && wild[w] == '*' {
        if mp != 0 {
          FurtherStar(str, s, wild, w, cp, mp, caseSensitive);
        }
        w := w + 1;
        if w == |wild| {
          FinalStar(str, s, wild, s + 1, caseSensitive);
          return s, w, true;
        }
        mp := w;
        cp := s + 1;
      } else if w < |wild| && Accepts(wild[w], str[s], caseSensitive) {
        Fits(str, s, wild, w, cp, mp, caseSensitive);
        w := w + 1;
        s := s + 1;
      } else {
        Misfit(str, s, wild, w, cp, mp, caseSensitive);
        w := mp;
        s := cp;
        cp := cp + 1;
      }
    }
    AtTheEnd(str, cp - 1, wild, mp, w, caseSensitive);
    matched := false;
  }

  /** A name passes a filter list if any filter matches; an empty list may pass all. */
  method MatchesAny(name: string, filters: seq<string>, matchEmpty: bool, caseSensitive: bool) returns (r: bool)
    ensures r <==> (filters == [] && matchEmpty) || exists f :: f in filters && Matches(name, f, caseSensitive)
  {
    if filters == [] && matchEmpty {
      return true;
    }
    for i := 0 to |filters|
      invariant forall j :: 0 <= j < i ==> !Matches(name, filters[j], caseSensitive)
    {
      var hit := WildCmp(name, filters[i], caseSensitive);
      if hit {
        return true;
      }
    }
    return false;
  }
}
