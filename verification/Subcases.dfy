/** doctest's subcase exploration: a test body is executed over and over, and a
    mutable context decides on each execution which subcases are entered, so
    that the executions together walk the tree of subcases depth first. */
module Subcases {

  /** What identifies a subcase: its name and the place it is written at. */
  datatype Signature = Signature(name: string, file: string, line: int)

  type Path = seq<Signature>

  /** The SUBCASE statements of a test body in textual order: a subcase, the
      body inside it, and what comes after it. */
  datatype Body = Done | Subcase(sig: Signature, inside: Body, after: Body)

  ghost function Signatures(b: Body): set<Signature> {
    if b.Done? then {} else {b.sig} + Signatures(b.after)
  }

  ghost predicate DistinctSiblings(b: Body) {
    b.Subcase? ==>
      b.sig !in Signatures(b.after) && DistinctSiblings(b.inside) && DistinctSiblings(b.after)
  }

  // ----- the reference: which paths there are, and in which order -----

  /** p leads from the start of the body into a subcase without inner subcases. */
  ghost predicate IsLeafPath(b: Body, p: Path)
    decreases b, 1
  {
    if b.Done? then p == [] else IsLeafBelow(b, p)
  }

  ghost predicate IsLeafBelow(b: Body, p: Path)
    decreases b, 0
  {
    b.Subcase? && p != [] && ((p[0] == b.sig && IsLeafPath(b.inside, p[1..])) || IsLeafBelow(b.after, p))
  }

  /** Where p and q part, p takes the sibling that is written first. */
  ghost predicate Before(b: Body, p: Path, q: Path) {
    && b.Subcase? && p != [] && q != []
    && if p[0] == b.sig
       then if q[0] == b.sig then Before(b.inside, p[1..], q[1..]) else q[0] in Signatures(b.after)
       else q[0] != b.sig && Before(b.after, p, q)
  }

  /** Prefixes every path with one signature. */
  function Under(s: Signature, ps: seq<Path>): (r: seq<Path>)
    ensures |r| == |ps|
    ensures forall i :: 0 <= i < |ps| ==> r[i] == [s] + ps[i]
  {
    seq(|ps|, i requires 0 <= i < |ps| => [s] + ps[i])
  }

  /** The root-to-leaf paths of a body, depth first. A body without subcases is
      itself a leaf, reached by the empty path. */
  function Leaves(b: Body): (ps: seq<Path>)
    ensures |ps| >= 1
    decreases b, 1
  {
    if b.Done? then [[]] else LeavesBelow(b)
  }

  function LeavesBelow(b: Body): (ps: seq<Path>)
    ensures b.Subcase? ==> |ps| >= 1
    decreases b, 0
  {
    if b.Done? then [] else Under(b.sig, Leaves(b.inside)) + LeavesBelow(b.after)
  }

  lemma UnderMember(s: Signature, ps: seq<Path>, p: Path)
    ensures p in Under(s, ps) <==> p != [] && p[0] == s && p[1..] in ps
  {
    if p != [] && p[0] == s && p[1..] in ps {
      var k :| 0 <= k < |ps| && ps[k] == p[1..];
      assert Under(s, ps)[k] == p;
    }
  }

  lemma {:induction false} LeavesBelowAreTheLeafPaths(b: Body, p: Path)
    ensures p in LeavesBelow(b) <==> IsLeafBelow(b, p)
    decreases b, 0
  {
    if b.Subcase? {
      UnderMember(b.sig, Leaves(b.inside), p);
      LeavesBelowAreTheLeafPaths(b.after, p);
      if p != [] {
        LeavesAreTheLeafPaths(b.inside, p[1..]);
      }
    }
  }

  /** The enumeration misses no leaf and invents none. */
  lemma {:induction false} LeavesAreTheLeafPaths(b: Body, p: Path)
    ensures p in Leaves(b) <==> IsLeafPath(b, p)
    decreases b, 1
  {
    LeavesBelowAreTheLeafPaths(b, p);
  }

  lemma {:induction false} LeavesBelowStartWithASibling(b: Body, p: Path)
    requires p in LeavesBelow(b)
    ensures p != [] && p[0] in Signatures(b)
  {
    if p !in Under(b.sig, Leaves(b.inside)) {
      LeavesBelowStartWithASibling(b.after, p);
    }
  }

  /** The enumeration is in depth-first textual order. */
  lemma {:induction false} LeavesInOrder(b: Body, i: nat, j: nat)
    requires DistinctSiblings(b) && i < j < |LeavesBelow(b)|
    ensures Before(b, LeavesBelow(b)[i], LeavesBelow(b)[j])
  {
    var first, rest := Under(b.sig, Leaves(b.inside)), LeavesBelow(b.after);
    if j < |first| {
      LeavesInOrder(b.inside, i, j);
    } else {
      LeavesBelowStartWithASibling(b.after, rest[j - |first|]);
      if i >= |first| {
        LeavesBelowStartWithASibling(b.after, rest[i - |first|]);
        LeavesInOrder(b.after, i - |first|, j - |first|);
      }
    }
  }

  lemma {:induction false} BeforeIsIrreflexive(b: Body, p: Path)
    ensures !Before(b, p, p)
  {
    if b.Subcase? && p != [] {
      BeforeIsIrreflexive(b.inside, p[1..]);
      BeforeIsIrreflexive(b.after, p);
    }
  }

  /** So no path is enumerated twice. */
  lemma {:induction false} LeavesAreDistinct(b: Body, i: nat, j: nat)
    requires DistinctSiblings(b) && i < j < |Leaves(b)|
    ensures Leaves(b)[i] != Leaves(b)[j]
  {
    LeavesInOrder(b, i, j);
    BeforeIsIrreflexive(b, Leaves(b)[i]);
  }

  // ----- one execution of a body, seen from outside -----

  /** q can direct an execution of b: it leads down to some subcase of b. */
  ghost predicate Directs(b: Body, q: Path) {
    q == [] || (b.Subcase? && if q[0] == b.sig then Directs(b.inside, q[1..]) else Directs(b.after, q))
  }

  /** The first subcase of the body is the one that q directs to. */
  ghost predicate Selects(q: Path, sig: Signature) {
    q == [] || q[0] == sig
  }

  ghost function Tail(q: Path): Path {
    if q == [] then [] else q[1..]
  }

  /** The leaf an execution reaches, and the directive for the next one. */
  datatype Outcome = Outcome(path: Path, next: Path)

  /** Where the next execution goes, given what is left inside the first subcase. */
  ghost function AfterInner(b: Body, next: Path): Path
    requires b.Subcase?
  {
    if next != [] then [b.sig] + next else if b.after.Subcase? then [b.after.sig] else []
  }

  ghost function Execute(b: Body, q: Path): (o: Outcome)
    requires Directs(b, q)
    ensures b.Subcase? ==> o.path != [] && o.path[0] in Signatures(b)
  {
    if b.Done? then Outcome([], [])
    else if !Selects(q, b.sig) then Execute(b.after, q)
    else
      var inner := Execute(b.inside, Tail(q));
      Outcome([b.sig] + inner.path, AfterInner(b, inner.next))
  }

  lemma {:induction false} ExecuteNothing(q: Path)
    requires Directs(Done, q)
    ensures q == [] && Execute(Done, q) == Outcome([], [])
  {
  }

  lemma {:induction false} ExecuteSubcase(b: Body, q: Path)
    requires b.Subcase? && Directs(b, q)
    ensures !Selects(q, b.sig) ==> Directs(b.after, q) && Execute(b, q) == Execute(b.after, q)
    ensures Selects(q, b.sig) ==> Directs(b.inside, Tail(q))
    ensures Selects(q, b.sig) ==> Execute(b, q).path == [b.sig] + Execute(b.inside, Tail(q)).path
    ensures Selects(q, b.sig) ==> Execute(b, q).next == AfterInner(b, Execute(b.inside, Tail(q)).next)
  {
  }

  /** The leaf paths from the one that q directs to onwards. */
  ghost function Remaining(b: Body, q: Path): (ps: seq<Path>)
    requires Directs(b, q)
    ensures |ps| >= 1
  {
    if b.Done? then [[]]
    else if !Selects(q, b.sig) then Remaining(b.after, q)
    else Under(b.sig, Remaining(b.inside, Tail(q))) + LeavesBelow(b.after)
  }

  lemma {:induction false} UndirectedStartsAtTheFirstLeaf(b: Body)
    ensures Remaining(b, []) == Leaves(b)
  {
    if b.Subcase? {
      UndirectedStartsAtTheFirstLeaf(b.inside);
    }
  }

  lemma {:induction false} DirectInto(b: Body, q: Path)
    requires b.Subcase? && Directs(b.inside, q)
    ensures Directs(b, [b.sig] + q)
    ensures Remaining(b, [b.sig] + q) == Under(b.sig, Remaining(b.inside, q)) + LeavesBelow(b.after)
  {
    assert ([b.sig] + q)[1..] == q;
  }

  lemma {:induction false} DirectTo(b: Body)
    requires b.Subcase?
    ensures Directs(b, [b.sig]) && Remaining(b, [b.sig]) == LeavesBelow(b)
  {
    DirectInto(b, []);
    UndirectedStartsAtTheFirstLeaf(b.inside);
    assert [b.sig] + [] == [b.sig];
  }

  lemma {:induction false} DirectiveStartsWithASibling(b: Body, q: Path)
    requires Directs(b, q) && q != []
    ensures q[0] in Signatures(b)
  {
    if q[0] != b.sig {
      DirectiveStartsWithASibling(b.after, q);
    }
  }

  lemma {:induction false} RemainingSelected(b: Body, q: Path)
    requires b.Subcase? && Directs(b, q) && Selects(q, b.sig)
    ensures Directs(b.inside, Tail(q))
    ensures Remaining(b, q) == Under(b.sig, Remaining(b.inside, Tail(q))) + LeavesBelow(b.after)
  {
  }

  lemma HeadAndTail(x: seq<Path>, y: seq<Path>)
    requires x != []
    ensures (x + y)[0] == x[0] && (x + y)[1..] == x[1..] + y
  {
  }

  lemma {:induction false} RemainingTail(b: Body, q: Path)
    requires b.Subcase? && Directs(b, q) && Selects(q, b.sig) && Directs(b.inside, Tail(q))
    ensures var rest := Remaining(b.inside, Tail(q));
            && Remaining(b, q)[0] == [b.sig] + rest[0]
            && Remaining(b, q)[1..] == Under(b.sig, rest[1..]) + LeavesBelow(b.after)
  {
    hide Remaining, Directs, LeavesBelow;
    RemainingSelected(b, q);
    var rest := Remaining(b.inside, Tail(q));
    HeadAndTail(Under(b.sig, rest), LeavesBelow(b.after));
    assert Under(b.sig, rest)[1..] == Under(b.sig, rest[1..]);
  }

  /** An execution reaches the first remaining leaf, and the directive that it
      leaves behind stands for exactly the others. */
  lemma {:induction false} ExecuteAdvances(b: Body, q: Path)
    requires DistinctSiblings(b) && Directs(b, q)
    ensures Execute(b, q).path == Remaining(b, q)[0]
    ensures Directs(b, Execute(b, q).next)
    ensures Remaining(b, q)[1..] == if Execute(b, q).next == [] then [] else Remaining(b, Execute(b, q).next)
  {
    if b.Done? {
    } else if Selects(q, b.sig) {
      var inner := Execute(b.inside, Tail(q));
      ExecuteAdvances(b.inside, Tail(q));
      RemainingTail(b, q);
      if inner.next != [] {
        DirectInto(b, inner.next);
      } else if b.after.Subcase? {
        DirectTo(b.after);
        assert Under(b.sig, []) == [];
      }
    } else {
      ExecuteAdvances(b.after, q);
      var next := Execute(b.after, q).next;
      if next != [] {
        DirectiveStartsWithASibling(b.after, next);
      }
    }
  }

  // ----- what has been traversed never blocks what is to come -----

  ghost predicate Untouched(done: set<Path>, p: Path) {
    forall t :: t in done ==> !(p <= t)
  }

  /** No traversed path runs through a sibling in b. */
  ghost predicate UntouchedSiblings(done: set<Path>, s: Path, b: Body) {
    b.Subcase? ==> Untouched(done, s + [b.sig]) && UntouchedSiblings(done, s, b.after)
  }

  /** No traversed path runs through a subcase after the one q directs to. */
  ghost predicate Fresh(done: set<Path>, s: Path, b: Body, q: Path)
    decreases b
  {
    b.Subcase? ==>
      if Selects(q, b.sig)
      then UntouchedSiblings(done, s, b.after) && Fresh(done, s + [b.sig], b.inside, Tail(q))
      else Fresh(done, s, b.after, q)
  }

  lemma {:induction false} UntouchedIsInherited(done: set<Path>, s: Path, b: Body)
    requires Untouched(done, s)
    ensures UntouchedSiblings(done, s, b)
  {
    if b.Subcase? {
      forall t | t in done ensures !(s + [b.sig] <= t) {
        assert s + [b.sig] <= t ==> s <= t;
      }
      UntouchedIsInherited(done, s, b.after);
    }
  }

  lemma {:induction false} UntouchedIsFresh(done: set<Path>, s: Path, b: Body)
    requires UntouchedSiblings(done, s, b)
    ensures Fresh(done, s, b, [])
    decreases b
  {
    if b.Subcase? {
      UntouchedIsInherited(done, s + [b.sig], b.inside);
      UntouchedIsFresh(done, s + [b.sig], b.inside);
    }
  }

  lemma {:induction false} OthersStayUntouched(done: set<Path>, s: Path, p: Path, b: Body)
    requires p != [] && p[0] !in Signatures(b) && UntouchedSiblings(done, s, b)
    ensures UntouchedSiblings(done + {s + p}, s, b)
  {
    if b.Subcase? {
      assert (s + p)[|s|] == p[0] && (s + [b.sig])[|s|] == b.sig;
      OthersStayUntouched(done, s, p, b.after);
    }
  }

  lemma {:induction false} FreshInside(done: set<Path>, s: Path, b: Body, q: Path)
    requires b.Subcase? && DistinctSiblings(b) && Directs(b, q) && Fresh(done, s, b, q) && Selects(q, b.sig)
    ensures DistinctSiblings(b.inside) && Directs(b.inside, Tail(q)) && Fresh(done, s + [b.sig], b.inside, Tail(q))
    ensures b.sig !in Signatures(b.after) && UntouchedSiblings(done, s, b.after)
  {
  }

  lemma {:induction false} FreshAfter(done: set<Path>, s: Path, b: Body, q: Path)
    requires b.Subcase? && DistinctSiblings(b) && Directs(b, q) && Fresh(done, s, b, q) && !Selects(q, b.sig)
    ensures DistinctSiblings(b.after) && Directs(b.after, q) && Fresh(done, s, b.after, q)
  {
  }

  lemma {:induction false} UntouchedHead(done: set<Path>, s: Path, b: Body)
    requires b.Subcase? && UntouchedSiblings(done, s, b)
    ensures s + [b.sig] !in done && UntouchedSiblings(done, s, b.after)
  {
    assert s + [b.sig] <= s + [b.sig];
  }

  lemma {:induction false} OtherSignatures(b: Body, sig: Signature)
    requires b.Subcase? && sig !in Signatures(b)
    ensures sig != b.sig && sig !in Signatures(b.after)
  {
  }

  /** After an execution has recorded its leaf, the later subcases are still fresh. */
  lemma {:induction false} ExecuteKeepsFresh(done: set<Path>, s: Path, b: Body, q: Path)
    requires DistinctSiblings(b) && Directs(b, q) && Fresh(done, s, b, q)
    requires Execute(b, q).next != []
    ensures Fresh(done + {s + Execute(b, q).path}, s, b, Execute(b, q).next)
    decreases b
  {
    var o := Execute(b, q);
    var done' := done + {s + o.path};
    if Selects(q, b.sig) {
      var inner := Execute(b.inside, Tail(q));
      OthersStayUntouched(done, s, o.path, b.after);
      if inner.next != [] {
        assert o.next[1..] == inner.next;
        assert s + o.path == (s + [b.sig]) + inner.path;
        ExecuteKeepsFresh(done, s + [b.sig], b.inside, Tail(q));
      } else {
        UntouchedIsFresh(done', s, b.after);
        assert Fresh(done', s, b.after, o.next);
      }
    } else {
      ExecuteAdvances(b.after, q);
      DirectiveStartsWithASibling(b.after, o.next);
      ExecuteKeepsFresh(done, s, b.after, q);
    }
  }

  /** Between two executions of a body: `runs` have been made, and `next` stands
      for all the others. */
  ghost predicate Exploring(b: Body, next: Path, done: set<Path>, runs: seq<Path>) {
    && Directs(b, next)
    && Fresh(done, [], b, next)
    && runs + Remaining(b, next) == Leaves(b)
  }

  lemma ExploringStarts(b: Body)
    ensures Exploring(b, [], {}, [])
  {
    UntouchedIsInherited({}, [], b);
    UntouchedIsFresh({}, [], b);
    UndirectedStartsAtTheFirstLeaf(b);
  }

  lemma {:induction false} ExploringAdvances(b: Body, next: Path, done: set<Path>, runs: seq<Path>)
    requires DistinctSiblings(b) && Exploring(b, next, done, runs)
    ensures var o := Execute(b, next);
            if o.next == [] then runs + [o.path] == Leaves(b)
            else Exploring(b, o.next, done + {o.path}, runs + [o.path])
    ensures |runs| < |Leaves(b)|
  {
    var o, rest := Execute(b, next), Remaining(b, next);
    ExecuteAdvances(b, next);
    assert rest == [o.path] + rest[1..];
    assert runs + rest == runs + [o.path] + rest[1..];
    if o.next != [] {
      ExecuteKeepsFresh(done, [], b, next);
      assert [] + o.path == o.path;
    }
  }

  // ----- the state machine itself -----

  /** The part of doctest's context that subcases read and write. The set of
      hashes of traversed paths is a set of paths, as if hashes never collided. */
  class ContextState {
    var reachedLeaf: bool
    var subcaseStack: Path
    var nextSubcaseStack: Path
    var fullyTraversedSubcases: set<Path>
    var currentSubcaseDepth: nat
    /** The subcase_start events sent to the reporters. */
    var started: Path

    constructor ()
      ensures nextSubcaseStack == []
    {
      reachedLeaf, currentSubcaseDepth := false, 0;
      subcaseStack, nextSubcaseStack, started := [], [], [];
      fullyTraversedSubcases := {};
    }

    /** The source indexes the stack with the depth once a leaf was reached. */
    ghost predicate Valid()
      reads this
    {
      if reachedLeaf then currentSubcaseDepth < |subcaseStack| else currentSubcaseDepth == |subcaseStack|
    }

    /** What the context asks of an execution that has come down to the current stack. */
    ghost function Directive(): Path
      reads this
    {
      if |nextSubcaseStack| <= |subcaseStack| then [] else nextSubcaseStack[|subcaseStack|..]
    }

    /** The constructor of Subcase: decides whether the subcase is entered. */
    method EnterSubcase(sig: Signature) returns (entered: bool)
      requires Valid()
      modifies this
      ensures unchanged(`reachedLeaf) && unchanged(`fullyTraversedSubcases)
      ensures !old(reachedLeaf) ==>
                && entered == Selects(old(Directive()), sig)
                && nextSubcaseStack == old(nextSubcaseStack)
                && subcaseStack == (if entered then old(subcaseStack) + [sig] else old(subcaseStack))
      ensures old(reachedLeaf) ==>
                && subcaseStack == old(subcaseStack)
                && entered == (subcaseStack[old(currentSubcaseDepth)] == sig)
                && var p := subcaseStack[..old(currentSubcaseDepth)] + [sig];
                   nextSubcaseStack ==
                   if !entered && |old(nextSubcaseStack)| < |p| && p !in fullyTraversedSubcases then p
                   else old(nextSubcaseStack)
      ensures currentSubcaseDepth == old(currentSubcaseDepth) + (if entered then 1 else 0)
      ensures started == if entered then old(started) + [sig] else old(started)
    {
      entered := false;
      if !reachedLeaf {
        if |nextSubcaseStack| <= |subcaseStack| || nextSubcaseStack[|subcaseStack|] == sig {
          subcaseStack := subcaseStack + [sig];
          currentSubcaseDepth := currentSubcaseDepth + 1;
          entered := true;
          started := started + [sig];
        }
      } else {
        if subcaseStack[currentSubcaseDepth] == sig {
          currentSubcaseDepth := currentSubcaseDepth + 1;
          entered := true;
          started := started + [sig];
        } else if |nextSubcaseStack| <= currentSubcaseDepth
               && subcaseStack[..currentSubcaseDepth] + [sig] !in fullyTraversedSubcases {
          nextSubcaseStack := subcaseStack[..currentSubcaseDepth];
          nextSubcaseStack := nextSubcaseStack + [sig];
        }
      }
    }

    /** The destructor of a Subcase that was entered. */
    method LeaveSubcase()
      requires currentSubcaseDepth > 0
      modifies this
      ensures unchanged(`subcaseStack) && unchanged(`started) && reachedLeaf
      ensures currentSubcaseDepth == old(currentSubcaseDepth) - 1
      ensures nextSubcaseStack == if old(reachedLeaf) then old(nextSubcaseStack) else []
      ensures fullyTraversedSubcases ==
              if nextSubcaseStack == [] then old(fullyTraversedSubcases) + {subcaseStack}
              else old(fullyTraversedSubcases)
    {
      currentSubcaseDepth := currentSubcaseDepth - 1;
      if !reachedLeaf {
        fullyTraversedSubcases := fullyTraversedSubcases + {subcaseStack};
        nextSubcaseStack := [];
        reachedLeaf := true;
      } else if nextSubcaseStack == [] {
        fullyTraversedSubcases := fullyTraversedSubcases + {subcaseStack};
      }
    }

    /** The current execution has found its leaf, and what is left of b lies
        after the sibling it went through and was never traversed. */
    ghost predicate PastLeaf(b: Body)
      reads this
    {
      && reachedLeaf && Valid()
      && subcaseStack[currentSubcaseDepth] !in Signatures(b)
      && UntouchedSiblings(fullyTraversedSubcases, subcaseStack[..currentSubcaseDepth], b)
    }

    /** The current execution is on its way down and b is where it continues. */
    ghost predicate ComingDown(b: Body)
      reads this
    {
      && !reachedLeaf && Valid()
      && DistinctSiblings(b) && Directs(b, Directive())
      && Fresh(fullyTraversedSubcases, subcaseStack, b, Directive())
    }

    /** Executes the statements of a body. Past the leaf it enters nothing and
        only notes the first subcase as the next to run, unless one was noted. */
    method ExecuteBody(b: Body)
      requires PastLeaf(b) || ComingDown(b)
      modifies this
      ensures currentSubcaseDepth == old(currentSubcaseDepth)
      ensures old(reachedLeaf) ==>
                && OnlyNextChanged()
                && nextSubcaseStack ==
                   if b.Subcase? && |old(nextSubcaseStack)| <= currentSubcaseDepth
                   then subcaseStack[..currentSubcaseDepth] + [b.sig] else old(nextSubcaseStack)
      ensures !old(reachedLeaf) ==>
                && reachedLeaf == b.Subcase?
                && Arrived(old(subcaseStack), old(started), Execute(b, old(Directive())))
                && if b.Done? then unchanged(`nextSubcaseStack) && unchanged(`fullyTraversedSubcases)
                   else && Noted(old(subcaseStack), Execute(b, old(Directive())))
                        && fullyTraversedSubcases == old(fullyTraversedSubcases) + {subcaseStack}
      decreases b
    {
      hide Fresh, Directs, DistinctSiblings, UntouchedSiblings, Signatures, Execute;
      ghost var d, s, passed := Directive(), subcaseStack, reachedLeaf;
      if b.Done? {
        if !passed {
          ExecuteNothing(d);
        }
      } else {
        if passed {
          UntouchedHead(fullyTraversedSubcases, s[..currentSubcaseDepth], b);
          OtherSignatures(b, s[currentSubcaseDepth]);
        } else {
          ExecuteSubcase(b, d);
        }
        VisitSubcase(b);
        ExecuteBody(b.after);
        if !passed && Selects(d, b.sig) {
          var inner, o := Execute(b.inside, Tail(d)), Execute(b, d);
          assert s + [b.sig] + inner.path == s + o.path;
          assert s + [b.sig] + inner.next == s + ([b.sig] + inner.next);
          assert (s + o.path)[..|s|] == s;
        }
      }
    }

    twostate predicate OnlyNextChanged()
      reads this
    {
      && unchanged(`reachedLeaf) && unchanged(`subcaseStack) && unchanged(`fullyTraversedSubcases)
      && unchanged(`currentSubcaseDepth) && unchanged(`started)
    }

    ghost predicate Arrived(s: Path, events: Path, o: Outcome)
      reads this
    {
      subcaseStack == s + o.path && started == events + o.path
    }

    ghost predicate Noted(s: Path, o: Outcome)
      reads this
    {
      nextSubcaseStack == if o.next == [] then [] else s + o.next
    }

    /** The first SUBCASE statement of b: construct, run the inside if entered, destruct. */
    method VisitSubcase(b: Body)
      requires b.Subcase? && (PastLeaf(b) || ComingDown(b))
      modifies this
      ensures currentSubcaseDepth == old(currentSubcaseDepth)
      ensures old(reachedLeaf) ==>
                && OnlyNextChanged()
                && nextSubcaseStack ==
                   if |old(nextSubcaseStack)| <= currentSubcaseDepth
                   then subcaseStack[..currentSubcaseDepth] + [b.sig] else old(nextSubcaseStack)
      ensures old(ComingDown(b) && !Selects(Directive(), b.sig)) ==>
                && OnlyNextChanged() && unchanged(`nextSubcaseStack) && ComingDown(b.after)
      ensures old(ComingDown(b) && Selects(Directive(), b.sig)) ==>
                var inner := Execute(b.inside, Tail(old(Directive())));
                && reachedLeaf && PastLeaf(b.after)
                && Arrived(old(subcaseStack) + [b.sig], old(started) + [b.sig], inner)
                && Noted(old(subcaseStack) + [b.sig], inner)
                && fullyTraversedSubcases == old(fullyTraversedSubcases) + {subcaseStack}
      decreases b, 0
    {
      hide Fresh, Directs, DistinctSiblings, UntouchedSiblings, Untouched, Signatures, Execute, AfterInner;
      ghost var done, stack, directive := fullyTraversedSubcases, subcaseStack, Directive();
      if reachedLeaf {
        UntouchedHead(done, stack[..currentSubcaseDepth], b);
        OtherSignatures(b, stack[currentSubcaseDepth]);
      } else if Selects(directive, b.sig) {
        FreshInside(done, stack, b, directive);
      } else {
        FreshAfter(done, stack, b, directive);
      }
      var entered := EnterSubcase(b.sig);
      if entered {
        ghost var inner := Execute(b.inside, Tail(directive));
        if b.inside.Done? {
          ExecuteNothing(Tail(directive));
        }
        assert Directive() == Tail(directive);
        ExecuteBody(b.inside);
        LeaveSubcase();
        assert subcaseStack == stack + ([b.sig] + inner.path);
        assert subcaseStack[..|stack|] == stack;
        OthersStayUntouched(done, stack, [b.sig] + inner.path, b.after);
      }
    }

    /** One execution of the body from its start. */
    method RunOnce(body: Body) returns (run: Path)
      requires DistinctSiblings(body) && Directs(body, nextSubcaseStack)
      requires Fresh(fullyTraversedSubcases, [], body, nextSubcaseStack)
      modifies this
      ensures var o := Execute(body, old(nextSubcaseStack));
              && run == o.path && nextSubcaseStack == o.next
              && fullyTraversedSubcases ==
                 if body.Done? then old(fullyTraversedSubcases) else old(fullyTraversedSubcases) + {o.path}
    {
      reachedLeaf := false;
      subcaseStack := [];
      currentSubcaseDepth := 0;
      var seen := |started|;
      ghost var o := Execute(body, nextSubcaseStack);
      assert Directive() == nextSubcaseStack;
      ExecuteBody(body);
      run := started[seen..];
      assert [] + o.path == o.path && [] + o.next == o.next;
    }

    /** The loop that runs one test case: the body is executed again as long as
        the last execution has left a path to follow. */
    method RunTest(body: Body) returns (runs: seq<Path>)
      requires DistinctSiblings(body) && nextSubcaseStack == []
      modifies this
      ensures runs == Leaves(body)
      ensures nextSubcaseStack == []
    {
      fullyTraversedSubcases := {};
      runs := [];
      var runTest := true;
      ExploringStarts(body);
      while runTest
        invariant runTest ==> Exploring(body, nextSubcaseStack, fullyTraversedSubcases, runs)
        invariant !runTest ==> runs == Leaves(body) && nextSubcaseStack == []
        decreases |Leaves(body)| - |runs|, runTest
      {
        ExploringAdvances(body, nextSubcaseStack, fullyTraversedSubcases, runs);
        var run := RunOnce(body);
        runs := runs + [run];
        if nextSubcaseStack == [] {
          runTest := false;
        }
      }
    }
  }
}
