/** The `to_nfa` methods: Thompson's construction over the state arena.
    Every `NFANode()` of `rep.py` is a fresh index at the end of the
    arena, allocated in the same order as `rep.py` allocates them. */
module Thompson {
  import opened Wrappers
  import opened Syntax
  import opened Automaton

  /** Edges leaving a state in `[lo, hi)` stay in `[lo, hi)`. */
  ghost predicate Confined(b: Arena, lo: nat, hi: nat) {
    forall q, c, y :: lo <= q < hi && q < |b| && y in GetEdges(b[q], c) ==> lo <= y < hi
  }

  /** What every `to_nfa` result satisfies, for a fragment whose states
      are those from `lo` on: start and final are distinct states of the
      fragment, the final state has no edges, and no edge leaves the fragment. */
  ghost predicate Fragment(n: Nfa, lo: nat) {
    && lo <= n.start < |n.states|
    && lo <= n.final < |n.states|
    && n.start != n.final
    && n.states[n.final] == map[]
    && Confined(n.states, lo, |n.states|)
  }

  /** `b` keeps the first `|a|` states of `a` as they are. */
  predicate Keeps(a: Arena, b: Arena) {
    |a| <= |b| && b[..|a|] == a
  }

  lemma KeepsAt(a: Arena, b: Arena, q: nat)
    requires Keeps(a, b) && q < |a|
    ensures b[q] == a[q]
  {
    assert b[q] == b[..|a|][q];
  }

  /* The wiring functions below group `rep.py`'s `add_edge` calls by
     the node they change; calls on different nodes commute, and the calls
     on one node add to a set, so the grouping does not change the result. */

  /** `RESymbol.to_nfa`: two fresh states joined by an edge labelled `c`. */
  function SymbolNfa(a: Arena, c: char): (n: Nfa)
    ensures |n.states| == |a| + 2 && Keeps(a, n.states) && Fragment(n, |a|)
    ensures n.start == |a| && n.final == |a| + 1
    ensures n.states[n.start] == map[Some(c) := {n.final}]
  {
    var s := |a|;
    var b := a + [AddEdge(map[], s + 1, Some(c)), map[]];
    assert b[..|a|] == a;
    Nfa(b, s, s + 1)
  }

  /** `REConcat.to_nfa`: the first fragment's final state gets an epsilon
      edge to the second fragment's start. */
  function ConcatNfa(a: Arena, n1: Nfa, n2: Nfa): (n: Nfa)
    requires Keeps(a, n1.states) && Fragment(n1, |a|)
    requires Keeps(n1.states, n2.states) && Fragment(n2, |n1.states|)
    ensures |n.states| == |n2.states| && Keeps(a, n.states) && Fragment(n, |a|)
    ensures n.start == n1.start && n.final == n2.final
    ensures n.states[n1.final] == map[None := {n2.start}]
    ensures forall q :: 0 <= q < |n.states| && q != n1.final ==> n.states[q] == n2.states[q]
    ensures forall q :: 0 <= q < |n1.states| && q != n1.final ==> n.states[q] == n1.states[q]
  {
    KeepsAt(n1.states, n2.states, n1.final);
    var b := n2.states[n1.final := AddEdge(n2.states[n1.final], n2.start, None)];
    forall q | 0 <= q < |a|
      ensures b[q] == a[q]
    {
      KeepsAt(n1.states, n2.states, q);
      KeepsAt(a, n1.states, q);
    }
    forall q | 0 <= q < |n1.states|
      ensures n2.states[q] == n1.states[q]
    {
      KeepsAt(n1.states, n2.states, q);
    }
    Nfa(b, n1.start, n2.final)
  }

  /** `REOr.to_nfa`: a fresh start with epsilon edges to both fragments'
      starts, and both fragments' finals with epsilon edges to a fresh final. */
  function OrNfa(a: Arena, n1: Nfa, n2: Nfa): (n: Nfa)
    requires Keeps(a, n1.states) && Fragment(n1, |a|)
    requires Keeps(n1.states, n2.states) && Fragment(n2, |n1.states|)
    ensures |n.states| == |n2.states| + 2 && Keeps(a, n.states) && Fragment(n, |a|)
    ensures n.start == |n2.states| && n.final == |n2.states| + 1
    ensures n.states[n.start] == map[None := {n1.start, n2.start}]
    ensures n.states[n1.final] == map[None := {n.final}]
    ensures n.states[n2.final] == map[None := {n.final}]
    ensures forall q :: 0 <= q < |n2.states| && q != n1.final && q != n2.final ==> n.states[q] == n2.states[q]
    ensures forall q :: 0 <= q < |n1.states| && q != n1.final ==> n.states[q] == n1.states[q]
  {
    var s := |n2.states|;
    KeepsAt(n1.states, n2.states, n1.final);
    var start := AddEdge(AddEdge(map[], n1.start, None), n2.start, None);
    var final1 := AddEdge(n2.states[n1.final], s + 1, None);
    var final2 := AddEdge(n2.states[n2.final], s + 1, None);
    AddTwoEdges(n1.start, n2.start, None);
    assert final1 == map[None := {s + 1}] && final2 == map[None := {s + 1}];
    var b := n2.states[n1.final := final1][n2.final := final2] + [start, map[]];
    forall q | 0 <= q < |a|
      ensures b[q] == a[q]
    {
      KeepsAt(n1.states, n2.states, q);
      KeepsAt(a, n1.states, q);
    }
    forall q | 0 <= q < |n1.states|
      ensures n2.states[q] == n1.states[q]
    {
      KeepsAt(n1.states, n2.states, q);
    }
    OrConfined(a, n1, n2, b);
    Nfa(b, s, s + 1)
  }

  /** The arena `REOr.to_nfa` builds has no edge leaving the new fragment. */
  lemma OrConfined(a: Arena, n1: Nfa, n2: Nfa, b: Arena)
    requires Keeps(a, n1.states) && Fragment(n1, |a|)
    requires Keeps(n1.states, n2.states) && Fragment(n2, |n1.states|)
    requires |b| == |n2.states| + 2
    requires forall q :: 0 <= q < |n2.states| && q != n1.final && q != n2.final ==> b[q] == n2.states[q]
    requires b[n1.final] == map[None := {|n2.states| + 1}] && b[n2.final] == map[None := {|n2.states| + 1}]
    requires b[|n2.states|] == map[None := {n1.start, n2.start}] && b[|n2.states| + 1] == map[]
    ensures Confined(b, |a|, |b|)
  {
    forall q, c, y | |a| <= q < |b| && y in GetEdges(b[q], c)
      ensures |a| <= y < |b|
    {
      if q < |n1.states| && q != n1.final {
        KeepsAt(n1.states, n2.states, q);
        assert y in GetEdges(n1.states[q], c);
      } else if q < |n2.states| && q != n1.final && q != n2.final {
        assert y in GetEdges(n2.states[q], c);
      }
    }
  }

  /** `REStar.to_nfa`: a fresh start with epsilon edges to a fresh final and
      to the fragment's start, and the fragment's final with epsilon edges to
      the fresh final and back to the fragment's start. */
  function StarNfa(a: Arena, n1: Nfa): (n: Nfa)
    requires Keeps(a, n1.states) && Fragment(n1, |a|)
    ensures |n.states| == |n1.states| + 2 && Keeps(a, n.states) && Fragment(n, |a|)
    ensures n.start == |n1.states| && n.final == |n1.states| + 1
    ensures n.states[n.start] == map[None := {n.final, n1.start}]
    ensures n.states[n1.final] == map[None := {n.final, n1.start}]
    ensures forall q :: 0 <= q < |n1.states| && q != n1.final ==> n.states[q] == n1.states[q]
  {
    var s := |n1.states|;
    var start := AddEdge(AddEdge(map[], s + 1, None), n1.start, None);
    var final1 := AddEdge(AddEdge(n1.states[n1.final], s + 1, None), n1.start, None);
    AddTwoEdges(s + 1, n1.start, None);
    assert final1 == map[None := {s + 1, n1.start}];
    var b := n1.states[n1.final := final1] + [start, map[]];
    forall q | 0 <= q < |a|
      ensures b[q] == a[q]
    {
      KeepsAt(a, n1.states, q);
    }
    Nfa(b, s, s + 1)
  }

  /** `r.to_nfa()` with the states allocated so far in `a`: the fragment
      adds exactly `StateCount(r)` states and leaves the earlier ones as
      they were. */
  function Compile(r: Re, a: Arena): (n: Nfa)
    ensures |n.states| == |a| + StateCount(r)
    ensures Keeps(a, n.states)
    ensures Fragment(n, |a|)
    decreases r
  {
    match r
    case Symbol(c) => SymbolNfa(a, c)
    case Concat(r1, r2) =>
      var n1 := Compile(r1, a);
      ConcatNfa(a, n1, Compile(r2, n1.states))
    case Or(r1, r2) =>
      var n1 := Compile(r1, a);
      OrNfa(a, n1, Compile(r2, n1.states))
    case Star(r1) => StarNfa(a, Compile(r1, a))
  }
}
