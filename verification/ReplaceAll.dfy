/** Replacing every occurrence of a text, in place. */
module ReplaceAll {
  import opened Text

  /** Left to right: where the text starts with the needle, the needle is exchanged and
      skipped; elsewhere a character is kept. */
  function Replaced(s: string, what: string, with: string): string
    requires what != ""
  {
    if s == "" then ""
    else if what <= s then with + Replaced(s[|what|..], what, with)
    else [s[0]] + Replaced(s[1..], what, with)
  }

  function Count(s: string, what: string): nat
    requires what != ""
  {
    if s == "" then 0
    else if what <= s then 1 + Count(s[|what|..], what)
    else Count(s[1..], what)
  }

  lemma {:induction false} KeepFirst(s: string, what: string, with: string)
    requires what != "" && s != "" && !(what <= s)
    ensures Replaced(s, what, with) == [s[0]] + Replaced(s[1..], what, with)
    ensures Count(s, what) == Count(s[1..], what)
  {
  }

  /** Nothing changes in front of the first occurrence. */
  lemma {:induction false} UpTo(s: string, what: string, with: string, i: nat)
    requires what != "" && i <= |s| && forall j :: 0 <= j < i ==> !(what <= s[j..])
    ensures Replaced(s, what, with) == s[..i] + Replaced(s[i..], what, with)
    ensures Count(s, what) == Count(s[i..], what)
    decreases i
  {
    hide Replaced, Count;
    if i == 0 {
      assert s[0..] == s;
      assert s[..0] + Replaced(s, what, with) == Replaced(s, what, with);
    } else {
      UpTo(s, what, with, i - 1);
      KeepFirst(s[i - 1..], what, with);
      assert s[i - 1..][1..] == s[i..];
      assert s[..i - 1] + ([s[i - 1]] + Replaced(s[i..], what, with)) == s[..i] + Replaced(s[i..], what, with);
    }
  }

  lemma {:induction false} UpToFirst(s: string, what: string, with: string)
    requires what != ""
    ensures var i := Find(s, what);
            if i > |s| then Replaced(s, what, with) == s && Count(s, what) == 0
            else && i + |what| <= |s|
                 && Replaced(s, what, with) == s[..i] + with + Replaced(s[i + |what|..], what, with)
                 && Count(s, what) == 1 + Count(s[i + |what|..], what)
  {
    hide Find;
    var i := Find(s, what);
    if i > |s| {
      UpTo(s, what, with, |s|);
    } else {
      UpTo(s, what, with, i);
      assert s[i..][|what|..] == s[i + |what|..];
      var tail := Replaced(s[i + |what|..], what, with);
      assert s[..i] + (with + tail) == s[..i] + with + tail;
    }
  }

  /** replace_all, for a needle that is not empty. The text is searched again from
      behind the replacement, so replacements are never replaced themselves. */
  method Replace(inout: string, what: string, with: string) returns (text: string, count: nat)
    requires what != ""
    ensures text == Replaced(inout, what, with) && count == Count(inout, what)
  {
    hide Find, Replaced, Count;
    text, count := inout, 0;
    var pos: nat := 0;
    assert text[..0] + Replaced(text, what, with) == Replaced(text, what, with);
    while true
      invariant pos <= |text|
      invariant text[..pos] + Replaced(text[pos..], what, with) == Replaced(inout, what, with)
      invariant count + Count(text[pos..], what) == Count(inout, what)
      decreases |text| - pos
    {
      ghost var rest := text[pos..];
      UpToFirst(rest, what, with);
      var at := Find(text[pos..], what);
      if at > |text| - pos {
        assert text[..pos] + rest == text;
        return;
      }
      pos := pos + at;
      ghost var before := text;
      text := text[..pos] + with + text[pos + |what|..];
      assert text[pos + |with|..] == before[pos + |what|..] == rest[at + |what|..];
      assert text[..pos + |with|] == before[..pos - at] + (rest[..at] + with);
      pos := pos + |with|;
      count := count + 1;
    }
  }

  method RemoveAll(inout: string, what: string) returns (text: string, count: nat)
    requires what != ""
    ensures text == Replaced(inout, what, "") && count == Count(inout, what)
  {
    text, count := Replace(inout, what, "");
  }

  lemma {:induction false} LengthOfReplaced(s: string, what: string, with: string)
    requires what != ""
    ensures |Replaced(s, what, with)| == |s| + Count(s, what) * (|with| - |what|)
  {
    if s == "" {
    } else if what <= s {
      var rest := s[|what|..];
      LengthOfReplaced(rest, what, with);
      assert (1 + Count(rest, what)) * (|with| - |what|) == Count(rest, what) * (|with| - |what|) + (|with| - |what|);
    } else {
      LengthOfReplaced(s[1..], what, with);
    }
  }

  /** The text is put together from the kept stretches and the needle; replacing only
      exchanges the needle. Replacing it by itself is the identity. */
  lemma {:induction false} ReplacedByItself(s: string, what: string)
    requires what != ""
    ensures Replaced(s, what, what) == s
  {
    if s == "" {
    } else if what <= s {
      ReplacedByItself(s[|what|..], what);
      assert s == what + s[|what|..];
    } else {
      ReplacedByItself(s[1..], what);
    }
  }

  // ----- does removing remove? -----

  predicate Occurs(s: string, what: string) {
    exists i :: 0 <= i <= |s| && what <= s[i..]
  }

  /** The needle repeats one character. */
  predicate Uniform(what: string) {
    forall i :: 0 <= i < |what| ==> what[i] == what[0]
  }

  lemma PrefixCons(t: string, s: string)
    requires t != "" && s != ""
    ensures t <= s <==> t[0] == s[0] && t[1..] <= s[1..]
  {
    if t[0] == s[0] && t[1..] <= s[1..] {
      assert t == [t[0]] + t[1..] && s == [s[0]] + s[1..];
    }
    if t <= s {
      assert s[..|t|] == t && s[1..][..|t| - 1] == t[1..];
    }
  }

  /** A text that does not start with the needle starts with as much of it afterwards. */
  lemma {:induction false} StartOfRemoved(s: string, what: string, k: nat)
    requires what != "" && Uniform(what) && k <= |what| && !(what <= s)
    requires what[..k] <= Replaced(s, what, "")
    ensures what[..k] <= s
    decreases |s|
  {
    if s == "" || k == 0 {
    } else {
      var t := what[..k];
      var removed := Replaced(s, what, "");
      PrefixCons(t, removed);
      PrefixCons(t, s);
      assert removed[1..] == Replaced(s[1..], what, "");
      UniformTail(what, k);
      if !(what <= s[1..]) {
        StartOfRemoved(s[1..], what, k - 1);
      } else {
        PrefixOfNeedle(what, s[1..], k - 1);
      }
    }
  }

  lemma UniformTail(what: string, k: nat)
    requires Uniform(what) && 0 < k <= |what|
    ensures what[..k][1..] == what[..k - 1]
  {
  }

  lemma PrefixOfNeedle(what: string, s: string, k: nat)
    requires what <= s && k <= |what|
    ensures what[..k] <= s
  {
  }

  lemma {:induction false} UniformIsRemoved(s: string, what: string)
    requires what != "" && Uniform(what)
    ensures !Occurs(Replaced(s, what, ""), what)
    decreases |s|
  {
    if s == "" {
    } else if what <= s {
      UniformIsRemoved(s[|what|..], what);
      assert "" + Replaced(s[|what|..], what, "") == Replaced(s[|what|..], what, "");
    } else {
      UniformIsRemoved(s[1..], what);
      var rest := Replaced(s[1..], what, "");
      var removed := Replaced(s, what, "");
      assert removed == [s[0]] + rest;
      assert what[..|what|] == what;
      if what <= removed {
        StartOfRemoved(s, what, |what|);
      }
      forall i | 0 <= i <= |removed|
        ensures !(what <= removed[i..])
      {
        if i == 0 {
          assert removed[0..] == removed;
        } else {
          assert removed[i..] == rest[i - 1..];
        }
      }
    }
  }

  /** How far the first character of the needle is repeated. */
  function Run(what: string): (k: nat)
    requires what != ""
    ensures 1 <= k <= |what|
    ensures forall i :: 0 <= i < k ==> what[i] == what[0]
    ensures k < |what| ==> what[k] != what[0]
  {
    if |what| > 1 && what[1] == what[0] then
      var k := Run(what[1..]);
      assert forall i :: 0 < i < 1 + k ==> what[i] == what[1..][i - 1];
      1 + k
    else 1
  }

  /** A text in which removing the needle puts a new one together. */
  function Trap(what: string): string
    requires what != ""
  {
    what[..Run(what)] + what + what[Run(what)..]
  }

  lemma {:induction false} SkipPrefix(a: string, s: string, what: string)
    requires what != "" && forall i :: 0 <= i < |a| ==> !(what <= (a + s)[i..])
    ensures Replaced(a + s, what, "") == a + Replaced(s, what, "")
  {
    if a == "" {
      assert a + s == s;
    } else {
      var t := a + s;
      assert t[0..] == t && t[1..] == a[1..] + s && t[0] == a[0];
      forall i | 0 <= i < |a[1..]|
        ensures !(what <= (a[1..] + s)[i..])
      {
        assert (a[1..] + s)[i..] == t[i + 1..];
      }
      SkipPrefix(a[1..], s, what);
      assert [a[0]] + (a[1..] + Replaced(s, what, "")) == a + Replaced(s, what, "");
    }
  }

  lemma {:induction false} TooShort(s: string, what: string)
    requires |s| < |what|
    ensures Replaced(s, what, "") == s
  {
    if s != "" {
      TooShort(s[1..], what);
    }
  }

  lemma {:induction false} TrapIsFree(what: string, i: nat)
    requires what != "" && i < Run(what) < |what|
    ensures !(what <= Trap(what)[i..])
  {
    var k := Run(what);
    assert Trap(what)[i..][k] == Trap(what)[i + k] == what[i];
  }

  lemma {:induction false} RemoveFirst(what: string, s: string)
    requires what != ""
    ensures Replaced(what + s, what, "") == Replaced(s, what, "")
  {
    hide Replaced;
    StartsWithNeedle(what, s);
    assert (what + s)[|what|..] == s;
  }

  lemma {:induction false} StartsWithNeedle(what: string, s: string)
    requires what != ""
    ensures Replaced(what + s, what, "") == Replaced((what + s)[|what|..], what, "")
  {
    assert "" + Replaced((what + s)[|what|..], what, "") == Replaced((what + s)[|what|..], what, "");
  }

  lemma {:induction false} NotUniformRun(what: string)
    requires what != "" && !Uniform(what)
    ensures Run(what) < |what|
  {
  }

  lemma {:induction false} TrapSprings(what: string)
    requires what != "" && !Uniform(what)
    ensures Replaced(Trap(what), what, "") == what
  {
    hide Run, Replaced;
    NotUniformRun(what);
    var k := Run(what);
    var a, b := what[..k], what[k..];
    assert Trap(what) == a + (what + b);
    forall i | 0 <= i < |a|
      ensures !(what <= (a + (what + b))[i..])
    {
      TrapIsFree(what, i);
    }
    SkipPrefix(a, what + b, what);
    RemoveFirst(what, b);
    TooShort(b, what);
    assert a + b == what;
  }

  /** Removing all occurrences leaves none behind, whatever the text, exactly if the
      needle repeats a single character: removal can put a new needle together. */
  lemma {:induction false} RemovesAllExactly(what: string)
    requires what != ""
    ensures (forall s :: !Occurs(Replaced(s, what, ""), what)) <==> Uniform(what)
  {
    hide Replaced, Run;
    if Uniform(what) {
      forall s
        ensures !Occurs(Replaced(s, what, ""), what)
      {
        UniformIsRemoved(s, what);
      }
    } else {
      TrapSprings(what);
      assert what <= what[0..];
      assert Occurs(Replaced(Trap(what), what, ""), what);
    }
  }
}
