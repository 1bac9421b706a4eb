/** `re_matcher`: simulation of the automaton over a text, reporting the
    length of the longest prefix that reaches the final state. */
module Matcher {
  import opened Wrappers
  import opened Automaton

  /** The automaton accepts `w`: its final state is active after `w`. */
  ghost predicate Accepts(n: Nfa, w: string)
    requires WellFormed(n.states)
  {
    n.final in Active(n.states, n.start, w)
  }

  /** Reference definition of the answer: scanning the prefix lengths down
      from `k`, the first one the automaton accepts. */
  ghost function LongestUpTo(n: Nfa, text: string, k: nat): Option<nat>
    requires WellFormed(n.states) && k <= |text|
  {
    if Accepts(n, text[..k]) then Some(k)
    else if k == 0 then None
    else LongestUpTo(n, text, k - 1)
  }

  ghost function Longest(n: Nfa, text: string): Option<nat>
    requires WellFormed(n.states)
  {
    LongestUpTo(n, text, |text|)
  }

  /** `LongestUpTo` finds nothing exactly when no prefix of length up to
      `k` is accepted. */
  lemma {:induction false} LongestUpToNone(n: Nfa, text: string, k: nat)
    requires WellFormed(n.states) && k <= |text|
    ensures LongestUpTo(n, text, k).None? <==> forall j :: 0 <= j <= k ==> !Accepts(n, text[..j])
    decreases k
  {
    if !Accepts(n, text[..k]) && k > 0 {
      LongestUpToNone(n, text, k - 1);
    }
  }

  /** What `LongestUpTo` finds is accepted, and no longer prefix up to `k` is. */
  lemma {:induction false} LongestUpToSome(n: Nfa, text: string, k: nat)
    requires WellFormed(n.states) && k <= |text| && LongestUpTo(n, text, k).Some?
    ensures LongestUpTo(n, text, k).value <= k
    ensures Accepts(n, text[..LongestUpTo(n, text, k).value])
    ensures forall j :: LongestUpTo(n, text, k).value < j <= k ==> !Accepts(n, text[..j])
    decreases k
  {
    if !Accepts(n, text[..k]) {
      LongestUpToSome(n, text, k - 1);
    }
  }

  /** The measure of `add_state`: the states it may still add. */
  function Unvisited(a: Arena, x: nat, R: set<nat>): nat {
    |(Indices(a) + {x}) - R|
  }

  lemma UnvisitedDrops(a: Arena, x: nat, R: set<nat>, R1: set<nat>, y: nat)
    requires x !in R && R + {x} <= R1 && y < |a|
    ensures Unvisited(a, y, R1) < Unvisited(a, x, R)
  {
    var before := (Indices(a) + {x}) - R;
    var after := (Indices(a) + {y}) - R1;
    assert after <= before - {x};
    SubsetNoLarger(after, before - {x});
    ProperSubsetSmaller(before - {x}, before);
  }

  /** `add_state`: a depth-first search along epsilon edges from `x` that
      stops at states already in `R`. The result adds to `R` only states
      epsilon-reachable from `x`, contains `x`, and every state it adds has
      all its epsilon-successors in the result; so when `R` is closed the
      result is the closure of `R` plus `x`. */
  method AddState(a: Arena, x: nat, R: set<nat>) returns (r: set<nat>)
    requires WellFormed(a)
    ensures R <= r && x in r
    ensures r <= R + EClose(a, {x})
    ensures forall q, y :: q in r - R && y in Succ(a, q, None) ==> y in r
    ensures Closed(a, R) ==> r == EClose(a, R + {x})
    decreases Unvisited(a, x, R)
  {
    if x in R {
      r := R;
      if Closed(a, R) {
        ECloseUnique(a, R + {x}, R);
      }
      return;
    }
    r := R + {x};
    var ys := Succ(a, x, None);
    var cx := EClose(a, {x});
    while ys != {}
      invariant ys <= Succ(a, x, None)
      invariant R + {x} <= r <= R + cx
      invariant Succ(a, x, None) - ys <= r
      invariant forall q, z :: q in r - R && q != x && z in Succ(a, q, None) ==> z in r
      decreases |ys|
    {
      var y :| y in ys;
      assert y < |a| && y in cx;
      ECloseLeast(a, {y}, cx);
      UnvisitedDrops(a, x, R, r, y);
      r := AddState(a, y, r);
      ys := ys - {y};
    }
    if Closed(a, R) {
      assert Closed(a, r);
      ClosureOfUnion(a, R, x, r);
    }
  }

  /** A closed set between `R + {x}` and `R` plus the closure of `x`, with
      `R` closed, is the closure of `R + {x}`. */
  lemma ClosureOfUnion(a: Arena, R: set<nat>, x: nat, r: set<nat>)
    requires WellFormed(a) && Closed(a, R) && Closed(a, r)
    requires R + {x} <= r <= R + EClose(a, {x})
    ensures r == EClose(a, R + {x})
  {
    ECloseMonotone(a, {x}, R + {x});
    assert R <= EClose(a, R + {x});
    ECloseUnique(a, R + {x}, r);
  }

  /** One step of the simulation: `add_state` applied to every state that an
      edge labelled `c` leads to from `S`, starting from the empty set. */
  method Step(a: Arena, S: set<nat>, c: char) returns (next: set<nat>)
    requires WellFormed(a)
    ensures next == EClose(a, Targets(a, S, c))
  {
    next := {};
    var T := Targets(a, S, c);
    var closure := EClose(a, T);
    ECloseLeast(a, {}, {});
    var todo := S;
    while todo != {}
      invariant todo <= S
      invariant Closed(a, next) && next <= closure
      invariant Targets(a, S - todo, c) <= next
      decreases |todo|
    {
      var x :| x in todo;
      var ys := Succ(a, x, Some(c));
      while ys != {}
        invariant ys <= Succ(a, x, Some(c))
        invariant Closed(a, next) && next <= closure
        invariant Targets(a, S - todo, c) <= next
        invariant Succ(a, x, Some(c)) - ys <= next
        decreases |ys|
      {
        var y :| y in ys;
        assert y in T;
        ECloseMonotone(a, {y}, T);
        next := AddState(a, y, next);
        ys := ys - {y};
      }
      todo := todo - {x};
    }
    assert S - todo == S;
    ECloseLeast(a, T, next);
  }

  /** Once no state is active after `text[..j]`, no longer prefix is
      accepted, so the answer is already known at `j`. */
  lemma {:induction false} LongestSettled(n: Nfa, text: string, j: nat, k: nat)
    requires WellFormed(n.states) && j <= k <= |text|
    requires Active(n.states, n.start, text[..j]) == {}
    ensures LongestUpTo(n, text, k) == LongestUpTo(n, text, j)
    decreases k - j
  {
    if j < k {
      LongestSettled(n, text, j, k - 1);
      assert text[..k][..j] == text[..j];
      ActiveStaysEmpty(n.states, n.start, text[..k], j);
    }
  }

  /** `re_matcher(text, nfa)`: `None` when no prefix of `text` (the empty
      one included) is accepted, otherwise the length of the longest
      accepted prefix. The loop stops early once no state is active, which
      does not change the answer. */
  method ReMatcher(text: string, n: Nfa) returns (result: Option<nat>)
    requires WellFormed(n.states)
    ensures result.None? <==> forall k :: 0 <= k <= |text| ==> !Accepts(n, text[..k])
    ensures result.Some? ==> result.value <= |text| && Accepts(n, text[..result.value])
    ensures result.Some? ==> forall k :: result.value < k <= |text| ==> !Accepts(n, text[..k])
    ensures result == Longest(n, text)
  {
    var a := n.states;
    var reachable := AddState(a, n.start, {});
    ECloseLeast(a, {}, {});
    assert {} + {n.start} == {n.start};
    assert |text[..0]| == 0;
    result := if n.final in reachable then Some(0) else None;
    var i := 0;
    while i < |text|
      invariant i <= |text|
      invariant reachable == Active(a, n.start, text[..i])
      invariant result == LongestUpTo(n, text, i)
    {
      assert text[..i + 1][..i] == text[..i];
      reachable := Step(a, reachable, text[i]);
      if n.final in reachable {
        result := Some(i + 1);
      }
      assert result == LongestUpTo(n, text, i + 1);
      if reachable == {} {
        LongestSettled(n, text, i + 1, |text|);
        break;
      }
      i := i + 1;
    }
    assert result == Longest(n, text);
    LongestUpToNone(n, text, |text|);
    if result.Some? {
      LongestUpToSome(n, text, |text|);
    }
  }
}
