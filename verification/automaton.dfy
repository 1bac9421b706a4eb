/** The automaton the compiler builds: `NFANode` edge maps held in an arena
    indexed by state number, runs through the arena, and the epsilon-closure
    and active-state semantics the matcher computes. */
module Automaton {
  import opened Wrappers

  /** An edge label: `Some(c)` consumes the character `c`, `None` is epsilon. */
  type Label = Option<char>

  /** `NFANode.edges`: destinations per label. */
  type Node = map<Label, set<nat>>

  /** Every state ever allocated, identified by its index. */
  type Arena = seq<Node>

  /** `NFA`: the arena together with the start and final states. */
  datatype Nfa = Nfa(states: Arena, start: nat, final: nat)

  /** `NFANode.get_edges`: a label without an entry has no destinations. */
  function GetEdges(n: Node, c: Label): (r: set<nat>)
    ensures c !in n ==> r == {}
    ensures c in n ==> r == n[c]
  {
    if c !in n then {} else n[c]
  }

  /** `NFANode.add_edge`: `x` joins the destinations under `c`; every other
      label keeps its destinations. */
  function AddEdge(n: Node, x: nat, c: Label): (r: Node)
    ensures GetEdges(r, c) == GetEdges(n, c) + {x}
    ensures forall d :: d != c ==> GetEdges(r, d) == GetEdges(n, d)
    ensures r.Keys == n.Keys + {c}
  {
    if c !in n then n[c := {x}] else n[c := n[c] + {x}]
  }

  /** Adding an edge that is already there changes nothing. */
  lemma AddEdgeIdempotent(n: Node, x: nat, c: Label)
    ensures AddEdge(AddEdge(n, x, c), x, c) == AddEdge(n, x, c)
  {
  }

  /** Two edges under one label added to a fresh node. */
  lemma AddTwoEdges(x: nat, y: nat, c: Label)
    ensures AddEdge(AddEdge(map[], x, c), y, c) == map[c := {x, y}]
  {
    var m := AddEdge(map[], x, c);
    assert m == map[c := {x}];
    assert AddEdge(m, y, c) == m[c := {x} + {y}];
    assert {x} + {y} == {x, y};
    assert m[c := {x, y}] == map[c := {x, y}];
  }

  /** The destinations of state `q` under `c`; a state outside the arena has none. */
  function Succ(a: Arena, q: nat, c: Label): set<nat> {
    if q < |a| then GetEdges(a[q], c) else {}
  }

  /** The states of the arena. */
  function Indices(a: Arena): (r: set<nat>)
    ensures forall i: nat :: i in r <==> i < |a|
  {
    Below(|a|)
  }

  function Below(n: nat): (r: set<nat>)
    ensures forall i: nat :: i in r <==> i < n
  {
    if n == 0 then {} else Below(n - 1) + {n - 1}
  }

  /** Every edge leads to a state of the arena. */
  ghost predicate WellFormed(a: Arena) {
    forall q, c, y :: 0 <= q < |a| && y in GetEdges(a[q], c) ==> y < |a|
  }

  /** `b` keeps every state of `a` and every edge of each. */
  ghost predicate Extends(a: Arena, b: Arena) {
    |a| <= |b| && forall q, c :: 0 <= q < |a| ==> GetEdges(a[q], c) <= GetEdges(b[q], c)
  }

  lemma ExtendsTrans(a: Arena, b: Arena, d: Arena)
    requires Extends(a, b) && Extends(b, d)
    ensures Extends(a, d)
  {
  }

  lemma ExtendsByPrefix(a: Arena, b: Arena)
    requires |a| <= |b| && b[..|a|] == a
    ensures Extends(a, b)
  {
    forall q, c | 0 <= q < |a|
      ensures GetEdges(a[q], c) <= GetEdges(b[q], c)
    {
      assert b[q] == b[..|a|][q];
    }
  }

  /* ---------- Runs ---------- */

  /** A walk through the arena: `states[i+1]` is a destination of
      `states[i]` under `labels[i]`. */
  datatype Run = Run(states: seq<nat>, labels: seq<Label>)

  predicate ValidRun(a: Arena, r: Run) {
    && |r.states| == |r.labels| + 1
    && forall i :: 0 <= i < |r.labels| ==> r.states[i + 1] in Succ(a, r.states[i], r.labels[i])
  }

  function Last(r: Run): nat
    requires |r.states| > 0
  {
    r.states[|r.states| - 1]
  }

  /** The characters a sequence of labels consumes, epsilons dropped. */
  function Spell(ls: seq<Label>): string {
    if |ls| == 0 then []
    else (if ls[0].Some? then [ls[0].value] else []) + Spell(ls[1..])
  }

  /** A valid run from `p` to `q` consuming `w`. */
  predicate RunOf(a: Arena, r: Run, p: nat, q: nat, w: string) {
    ValidRun(a, r) && r.states[0] == p && Last(r) == q && Spell(r.labels) == w
  }

  /** `q` is reachable from `p` by a path whose labels spell `w`. */
  ghost predicate Reaches(a: Arena, p: nat, q: nat, w: string) {
    exists r :: RunOf(a, r, p, q, w)
  }

  lemma {:induction false} SpellAppend(x: seq<Label>, y: seq<Label>)
    ensures Spell(x + y) == Spell(x) + Spell(y)
    decreases |x|
  {
    if |x| > 0 {
      var h := if x[0].Some? then [x[0].value] else [];
      assert (x + y)[0] == x[0];
      assert (x + y)[1..] == x[1..] + y;
      SpellAppend(x[1..], y);
      assert Spell(x + y) == h + Spell(x[1..] + y);
      assert Spell(x) == h + Spell(x[1..]);
    } else {
      assert x + y == y;
    }
  }

  lemma SpellSplit(ls: seq<Label>, i: nat)
    requires i <= |ls|
    ensures Spell(ls) == Spell(ls[..i]) + Spell(ls[i..])
  {
    assert ls == ls[..i] + ls[i..];
    SpellAppend(ls[..i], ls[i..]);
  }

  /** The word is empty exactly when every label is epsilon. */
  lemma {:induction false} SpellEmpty(ls: seq<Label>)
    ensures Spell(ls) == [] <==> forall i :: 0 <= i < |ls| ==> ls[i] == None
    decreases |ls|
  {
    if |ls| > 0 {
      SpellEmpty(ls[1..]);
      assert forall i :: 1 <= i < |ls| ==> ls[i] == ls[1..][i - 1];
    }
  }

  /** The run that stays at `p`. */
  function Stay(p: nat): (r: Run)
    ensures |r.states| == 1 && Last(r) == p
  {
    Run([p], [])
  }

  /** A single edge from `p` to `q` under `c`. */
  function Edge(p: nat, c: Label, q: nat): Run {
    Run([p, q], [c])
  }

  /** `r1` followed by `r2`, which starts where `r1` ends. */
  function Join(r1: Run, r2: Run): Run
    requires |r2.states| > 0
  {
    Run(r1.states + r2.states[1..], r1.labels + r2.labels)
  }

  lemma JoinRun(a: Arena, r1: Run, r2: Run)
    requires ValidRun(a, r1) && ValidRun(a, r2) && Last(r1) == r2.states[0]
    ensures ValidRun(a, Join(r1, r2))
    ensures Join(r1, r2).states[0] == r1.states[0] && Last(Join(r1, r2)) == Last(r2)
    ensures Spell(Join(r1, r2).labels) == Spell(r1.labels) + Spell(r2.labels)
  {
    var j := Join(r1, r2);
    var n := |r1.labels|;
    forall i | 0 <= i < |j.labels|
      ensures j.states[i + 1] in Succ(a, j.states[i], j.labels[i])
    {
      if i < n {
        assert j.states[i] == r1.states[i] && j.labels[i] == r1.labels[i];
        assert j.states[i + 1] == r1.states[i + 1];
      } else {
        assert j.states[i] == r2.states[i - n] && j.labels[i] == r2.labels[i - n];
        assert j.states[i + 1] == r2.states[i - n + 1];
      }
    }
    SpellAppend(r1.labels, r2.labels);
  }

  /** The part of `r` from position `i` to position `j`. */
  function Part(r: Run, i: nat, j: nat): Run
    requires i <= j < |r.states| && |r.states| == |r.labels| + 1
  {
    Run(r.states[i..j + 1], r.labels[i..j])
  }

  lemma PartRun(a: Arena, r: Run, i: nat, j: nat)
    requires ValidRun(a, r) && i <= j < |r.states|
    ensures ValidRun(a, Part(r, i, j))
    ensures Part(r, i, j).states[0] == r.states[i] && Last(Part(r, i, j)) == r.states[j]
  {
    var p := Part(r, i, j);
    forall k | 0 <= k < |p.labels|
      ensures p.states[k + 1] in Succ(a, p.states[k], p.labels[k])
    {
      assert p.states[k] == r.states[i + k] && p.labels[k] == r.labels[i + k];
      assert p.states[k + 1] == r.states[i + k + 1];
    }
  }

  /** The word of a run split at position `i`, with one label between the halves. */
  lemma SpellAround(r: Run, i: nat)
    requires |r.states| == |r.labels| + 1 && i < |r.labels|
    ensures Spell(r.labels)
         == Spell(Part(r, 0, i).labels) + Spell([r.labels[i]]) + Spell(Part(r, i + 1, |r.labels|).labels)
  {
    var ls := r.labels;
    assert ls[..i + 1] == ls[0..i] + [ls[i]];
    assert ls[i + 1..] == ls[i + 1..|ls|];
    SpellSplit(ls, i + 1);
    SpellAppend(ls[0..i], [ls[i]]);
  }

  lemma LiftRun(a: Arena, b: Arena, r: Run)
    requires ValidRun(a, r) && Extends(a, b)
    ensures ValidRun(b, r)
  {
    forall i | 0 <= i < |r.labels|
      ensures r.states[i + 1] in Succ(b, r.states[i], r.labels[i])
    {
      assert r.states[i + 1] in Succ(a, r.states[i], r.labels[i]);
      assert r.states[i] < |a|;
    }
  }

  /* ---------- Epsilon-closure ---------- */

  /** The epsilon-successors of the states in `S`. */
  function EpsPost(a: Arena, S: set<nat>): set<nat> {
    set q, y | q in S && y in Succ(a, q, None) :: y
  }

  /** No epsilon edge leaves `T`. */
  ghost predicate Closed(a: Arena, T: set<nat>) {
    forall q, y :: q in T && y in Succ(a, q, None) ==> y in T
  }

  lemma ProperSubsetSmaller(A: set<nat>, B: set<nat>)
    requires A < B
    ensures |A| < |B|
  {
    assert !(B <= A);
    var x :| x in B && x !in A;
    assert A <= B - {x};
    assert |B - {x}| == |B| - 1;
    SubsetNoLarger(A, B - {x});
  }

  lemma {:induction false} SubsetNoLarger(A: set<nat>, B: set<nat>)
    requires A <= B
    ensures |A| <= |B|
    decreases |B|
  {
    if A != {} {
      var x :| x in A;
      SubsetNoLarger(A - {x}, B - {x});
    }
  }

  /** The least superset of `S` closed under epsilon edges, by adding
      epsilon-successors until nothing new appears. */
  function EClose(a: Arena, S: set<nat>): (r: set<nat>)
    requires WellFormed(a)
    ensures S <= r
    ensures Closed(a, r)
    ensures r - S <= Indices(a)
    decreases |Indices(a) - S|
  {
    var S' := S + EpsPost(a, S);
    if S' == S then S
    else
      assert EpsPost(a, S) <= Indices(a);
      ProperSubsetSmaller(Indices(a) - S', Indices(a) - S);
      EClose(a, S')
  }

  /** Every epsilon-closed superset of `S` contains the closure of `S`. */
  lemma {:induction false} ECloseLeast(a: Arena, S: set<nat>, T: set<nat>)
    requires WellFormed(a) && S <= T && Closed(a, T)
    ensures EClose(a, S) <= T
    decreases |Indices(a) - S|
  {
    var S' := S + EpsPost(a, S);
    if S' != S {
      assert EpsPost(a, S) <= Indices(a);
      ProperSubsetSmaller(Indices(a) - S', Indices(a) - S);
      ECloseLeast(a, S', T);
    }
  }

  lemma ECloseMonotone(a: Arena, S: set<nat>, T: set<nat>)
    requires WellFormed(a) && S <= T
    ensures EClose(a, S) <= EClose(a, T)
  {
    ECloseLeast(a, S, EClose(a, T));
  }

  /** A closed superset that lies inside the closure is the closure. */
  lemma ECloseUnique(a: Arena, S: set<nat>, R: set<nat>)
    requires WellFormed(a) && S <= R && Closed(a, R) && R <= EClose(a, S)
    ensures R == EClose(a, S)
  {
    ECloseLeast(a, S, R);
  }

  /** The states an epsilon-only run reaches from some state of `S`. */
  ghost predicate EpsReachable(a: Arena, S: set<nat>, q: nat) {
    exists r, p :: p in S && RunOf(a, r, p, q, [])
  }

  /** The states of `S`, and those of the arena reachable from `S`
      along epsilon edges. */
  ghost function EpsReachSet(a: Arena, S: set<nat>): set<nat> {
    set x | x in S + Indices(a) && EpsReachable(a, S, x)
  }

  lemma EpsReachExtend(a: Arena, S: set<nat>, x: nat, y: nat)
    requires EpsReachable(a, S, x) && y in Succ(a, x, None)
    ensures EpsReachable(a, S, y)
  {
    var r, p :| p in S && RunOf(a, r, p, x, []);
    var e := Edge(x, None, y);
    JoinRun(a, r, e);
    assert Spell(e.labels) == [];
    assert RunOf(a, Join(r, e), p, y, []);
  }

  lemma EpsReachSetClosed(a: Arena, S: set<nat>)
    requires WellFormed(a)
    ensures S <= EpsReachSet(a, S)
    ensures Closed(a, EpsReachSet(a, S))
  {
    var R := EpsReachSet(a, S);
    forall x | x in S
      ensures x in R
    {
      assert RunOf(a, Stay(x), x, x, []);
    }
    forall x, y | x in R && y in Succ(a, x, None)
      ensures y in R
    {
      EpsReachExtend(a, S, x, y);
    }
  }

  /** Everything in the closure is reached from `S` along epsilon edges. */
  lemma ECloseReached(a: Arena, S: set<nat>, q: nat)
    requires WellFormed(a) && q in EClose(a, S)
    ensures EpsReachable(a, S, q)
  {
    EpsReachSetClosed(a, S);
    ECloseLeast(a, S, EpsReachSet(a, S));
  }

  /** Whatever an epsilon-only run reaches from `S` is in the closure. */
  lemma ECloseContainsRun(a: Arena, S: set<nat>, r: Run, p: nat, q: nat)
    requires WellFormed(a) && p in S && RunOf(a, r, p, q, [])
    ensures q in EClose(a, S)
  {
    SpellEmpty(r.labels);
    var C := EClose(a, S);
    var i := 0;
    while i < |r.labels|
      invariant i <= |r.labels|
      invariant r.states[i] in C
    {
      assert r.labels[i] == None;
      i := i + 1;
    }
  }

  /* ---------- Active states (the simulation of `re_matcher`) ---------- */

  /** The states entered from `S` by an edge labelled `c`. */
  function Targets(a: Arena, S: set<nat>, c: char): set<nat> {
    set q, y | q in S && y in Succ(a, q, Some(c)) :: y
  }

  /** The active set after consuming `w`: the closure of the start state,
      then for each character its targets, closed again. */
  function Active(a: Arena, start: nat, w: string): set<nat>
    requires WellFormed(a)
    decreases |w|
  {
    if |w| == 0 then EClose(a, {start})
    else EClose(a, Targets(a, Active(a, start, w[..|w| - 1]), w[|w| - 1]))
  }

  /** An empty active set stays empty whatever follows. */
  lemma {:induction false} ActiveStaysEmpty(a: Arena, start: nat, w: string, k: nat)
    requires WellFormed(a) && k <= |w| && Active(a, start, w[..k]) == {}
    ensures Active(a, start, w) == {}
    decreases |w| - k
  {
    if k < |w| {
      assert w[..k + 1][..k] == w[..k];
      assert Targets(a, {}, w[k]) == {};
      ECloseLeast(a, {}, {});
      ActiveStaysEmpty(a, start, w, k + 1);
    } else {
      assert w[..k] == w;
    }
  }

  /** The last character-consuming label of a run with a non-empty word. */
  lemma {:induction false} LastLetter(ls: seq<Label>) returns (i: nat)
    requires Spell(ls) != []
    ensures i < |ls| && ls[i].Some?
    ensures Spell(ls[..i]) + [ls[i].value] == Spell(ls)
    ensures forall k :: i < k < |ls| ==> ls[k] == None
    decreases |ls|
  {
    var n := |ls|;
    SpellSplit(ls, n - 1);
    assert ls[n - 1..] == [ls[n - 1]];
    if ls[n - 1].Some? {
      i := n - 1;
    } else {
      assert Spell(ls[n - 1..]) == [];
      i := LastLetter(ls[..n - 1]);
      assert ls[..n - 1][..i] == ls[..i];
    }
  }

  /** A state active after `w` is reached by a path spelling `w`. */
  lemma {:induction false} ActiveReached(a: Arena, start: nat, w: string, q: nat)
    requires WellFormed(a) && q in Active(a, start, w)
    ensures Reaches(a, start, q, w)
    decreases |w|
  {
    if |w| == 0 {
      ECloseReached(a, {start}, q);
    } else {
      var w', c := w[..|w| - 1], w[|w| - 1];
      var T := Targets(a, Active(a, start, w'), c);
      ECloseReached(a, T, q);
      var r2, t :| t in T && RunOf(a, r2, t, q, []);
      var p :| p in Active(a, start, w') && t in Succ(a, p, Some(c));
      ActiveReached(a, start, w', p);
      var r1 :| RunOf(a, r1, start, p, w');
      ExtendByLetter(a, r1, start, p, w', c, t, r2, q);
      assert w == w' + [c];
    }
  }

  /** A path spelling `w'`, one edge labelled `c`, then epsilon edges,
      spells `w' + [c]`. */
  lemma ExtendByLetter(a: Arena, r1: Run, start: nat, p: nat, w': string, c: char,
                       t: nat, r2: Run, q: nat)
    requires RunOf(a, r1, start, p, w') && t in Succ(a, p, Some(c)) && RunOf(a, r2, t, q, [])
    ensures Reaches(a, start, q, w' + [c])
  {
    var e := Edge(p, Some(c), t);
    JoinRun(a, r1, e);
    JoinRun(a, Join(r1, e), r2);
    assert Spell(e.labels) == [c];
    assert RunOf(a, Join(Join(r1, e), r2), start, q, w' + [c]);
  }

  /** A state reached by a path spelling `w` is active after `w`. */
  lemma {:induction false} ReachedActive(a: Arena, start: nat, w: string, q: nat, r: Run)
    requires WellFormed(a) && RunOf(a, r, start, q, w)
    ensures q in Active(a, start, w)
    decreases |w|
  {
    if |w| == 0 {
      ECloseContainsRun(a, {start}, r, start, q);
    } else {
      var w', c := w[..|w| - 1], w[|w| - 1];
      var i := LastLetter(r.labels);
      var pre, post := SplitAtLetter(a, r, start, q, w, i);
      ReachedActive(a, start, w', r.states[i], pre);
      assert r.states[i + 1] in Targets(a, Active(a, start, w'), c);
      ECloseContainsRun(a, Targets(a, Active(a, start, w'), c), post, r.states[i + 1], q);
    }
  }

  /** Cutting a run around its last character-consuming edge `i`. */
  lemma SplitAtLetter(a: Arena, r: Run, start: nat, q: nat, w: string, i: nat)
      returns (pre: Run, post: Run)
    requires RunOf(a, r, start, q, w) && |w| > 0
    requires i < |r.labels| && r.labels[i].Some?
    requires Spell(r.labels[..i]) + [r.labels[i].value] == Spell(r.labels)
    requires forall k :: i < k < |r.labels| ==> r.labels[k] == None
    ensures RunOf(a, pre, start, r.states[i], w[..|w| - 1])
    ensures r.labels[i] == Some(w[|w| - 1])
    ensures r.states[i + 1] in Succ(a, r.states[i], r.labels[i])
    ensures RunOf(a, post, r.states[i + 1], q, [])
  {
    pre, post := Part(r, 0, i), Part(r, i + 1, |r.labels|);
    PartRun(a, r, 0, i);
    PartRun(a, r, i + 1, |r.labels|);
    assert r.labels[..i] == pre.labels;
    SpellEmpty(post.labels);
  }

  /** The active set after `w` is exactly the set of states reachable from
      the start state by a path spelling `w`. */
  lemma ActiveReaches(a: Arena, start: nat, w: string, q: nat)
    requires WellFormed(a)
    ensures q in Active(a, start, w) <==> Reaches(a, start, q, w)
  {
    if q in Active(a, start, w) {
      ActiveReached(a, start, w, q);
    }
    if Reaches(a, start, q, w) {
      var r :| RunOf(a, r, start, q, w);
      ReachedActive(a, start, w, q, r);
    }
  }
}
