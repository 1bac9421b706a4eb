/** Correctness of Thompson's construction: the compiled automaton has a
    path from its start to its final state spelling `w` exactly when the
    tree matches `w`. */
module ThompsonLaws {
  import opened Wrappers
  import opened Syntax
  import opened Automaton
  import opened Thompson

  /* ---------- Facts about the language ---------- */

  lemma ConcatIntro(r1: Re, r2: Re, w1: string, w2: string)
    requires Matches(r1, w1) && Matches(r2, w2)
    ensures Matches(Concat(r1, r2), w1 + w2)
  {
    var w := w1 + w2;
    assert w[..|w1|] == w1 && w[|w1|..] == w2;
  }

  lemma StarCons(r1: Re, w1: string, w2: string)
    requires Matches(r1, w1) && Matches(Star(r1), w2)
    ensures Matches(Star(r1), w1 + w2)
  {
    if w1 == [] {
      assert w1 + w2 == w2;
    } else {
      var w := w1 + w2;
      assert w[..|w1|] == w1 && w[|w1|..] == w2;
    }
  }

  lemma SplitJoin(w: string, k: nat)
    requires k <= |w|
    ensures w[..k] + w[k..] == w
  {
  }

  lemma SpellOne(c: Label)
    ensures Spell([c]) == (if c.Some? then [c.value] else [])
  {
    assert [c][1..] == [];
  }

  /* ---------- How a fragment sits inside a larger arena ---------- */

  /** Every state of the fragment except its final one has the same edges
      in `B` as when the fragment was built. */
  ghost predicate Frozen(n: Nfa, lo: nat, B: Arena) {
    |n.states| <= |B| && forall q :: lo <= q < |n.states| && q != n.final ==> B[q] == n.states[q]
  }

  /** A run from `p` to `f` that reaches `f` only at its end. */
  ghost predicate Through(B: Arena, run: Run, p: nat, f: nat) {
    && ValidRun(B, run)
    && run.states[0] == p
    && Last(run) == f
    && forall i :: 0 <= i < |run.labels| ==> run.states[i] != f
  }

  /** The only edges leaving `[lo, hi)` leave from `f`. */
  ghost predicate Exits(B: Arena, lo: nat, hi: nat, f: nat) {
    forall q, c, y :: lo <= q < hi && q != f && y in Succ(B, q, c) ==> lo <= y < hi
  }

  lemma FrozenExits(n: Nfa, lo: nat, B: Arena)
    requires Fragment(n, lo) && Frozen(n, lo, B)
    ensures Exits(B, lo, |n.states|, n.final)
  {
    forall q, c, y | lo <= q < |n.states| && q != n.final && y in Succ(B, q, c)
      ensures lo <= y < |n.states|
    {
      assert B[q] == n.states[q];
    }
  }

  /** A run that starts inside `[lo, hi)` and ends outside it, or at `f`,
      passes `f`; `j` is the first time it does. */
  lemma FirstVisit(B: Arena, run: Run, lo: nat, hi: nat, f: nat) returns (j: nat)
    requires ValidRun(B, run) && Exits(B, lo, hi, f)
    requires lo <= run.states[0] < hi && run.states[0] != f
    requires !(lo <= Last(run) < hi) || Last(run) == f
    ensures 0 < j < |run.states| && run.states[j] == f
    ensures forall i :: 0 <= i < j ==> lo <= run.states[i] < hi && run.states[i] != f
  {
    j := 0;
    while run.states[j] != f
      invariant j < |run.states|
      invariant forall i :: 0 <= i <= j ==> lo <= run.states[i] < hi
      invariant forall i :: 0 <= i < j ==> run.states[i] != f
      decreases |run.states| - j
    {
      assert j < |run.labels|;
      assert run.states[j + 1] in Succ(B, run.states[j], run.labels[j]);
      j := j + 1;
    }
  }

  /** A run that takes, at position `j`, an edge of a state whose only
      edges are epsilon edges into `T`; `post` is the rest of the run. */
  lemma EpsStep(B: Arena, run: Run, j: nat, T: set<nat>) returns (post: Run)
    requires ValidRun(B, run) && j < |run.labels|
    requires run.states[j] < |B| && B[run.states[j]] == map[None := T]
    ensures run.labels[j] == None && run.states[j + 1] in T
    ensures ValidRun(B, post) && post.states[0] == run.states[j + 1] && Last(post) == Last(run)
    ensures |post.states| == |run.states| - j - 1
    ensures Spell(run.labels) == Spell(Part(run, 0, j).labels) + Spell(post.labels)
    ensures j == 0 ==> Spell(run.labels) == Spell(post.labels)
    ensures (forall i :: 0 <= i < |run.labels| ==> run.states[i] != Last(run)) ==>
              forall i :: 0 <= i < |post.labels| ==> post.states[i] != Last(run)
  {
    assert run.states[j + 1] in Succ(B, run.states[j], run.labels[j]);
    post := Part(run, j + 1, |run.labels|);
    PartRun(B, run, j + 1, |run.labels|);
    EpsSpell(run, j);
    TailAvoids(run, j, post);
  }

  /** Dropping an epsilon label at `j` splits the word at `j`. */
  lemma EpsSpell(run: Run, j: nat)
    requires |run.states| == |run.labels| + 1 && j < |run.labels| && run.labels[j] == None
    ensures Spell(run.labels) == Spell(Part(run, 0, j).labels) + Spell(Part(run, j + 1, |run.labels|).labels)
    ensures j == 0 ==> Spell(run.labels) == Spell(Part(run, j + 1, |run.labels|).labels)
  {
    var pre := Spell(Part(run, 0, j).labels);
    var post := Spell(Part(run, j + 1, |run.labels|).labels);
    SpellAround(run, j);
    SpellOne(None);
    assert Spell([run.labels[j]]) == [];
    assert pre + [] == pre;
    if j == 0 {
      assert Part(run, 0, 0).labels == [];
      assert pre == [];
      assert pre + post == post;
    }
  }

  /** A run that visits its last state only at its end has a tail that does too. */
  lemma TailAvoids(run: Run, j: nat, post: Run)
    requires |run.states| == |run.labels| + 1 && j < |run.labels|
    requires post == Part(run, j + 1, |run.labels|)
    ensures (forall i :: 0 <= i < |run.labels| ==> run.states[i] != Last(run)) ==>
              forall i :: 0 <= i < |post.labels| ==> post.states[i] != Last(run)
  {
    assert forall i :: 0 <= i < |post.labels| ==> post.states[i] == run.states[j + 1 + i];
  }

  /** A run to `f` that starts at a state whose only edges are epsilon
      edges into `T`: the rest of the run after the first edge is a shorter
      run to `f` from a state of `T`, spelling the same word. */
  lemma EpsFirst(B: Arena, run: Run, f: nat, T: set<nat>) returns (post: Run)
    requires |run.states| > 0 && Through(B, run, run.states[0], f) && run.states[0] != f
    requires run.states[0] < |B| && B[run.states[0]] == map[None := T]
    ensures |post.states| > 0 && Through(B, post, post.states[0], f) && post.states[0] in T
    ensures |post.states| < |run.states|
    ensures Spell(run.labels) == Spell(post.labels)
  {
    post := EpsStep(B, run, 0, T);
  }

  /* ---------- The edges of each fragment inside a larger arena ---------- */

  lemma SymbolFrozen(c: char, a: Arena, B: Arena)
    requires Frozen(Compile(Symbol(c), a), |a|, B)
    ensures B[Compile(Symbol(c), a).start] == map[Some(c) := {Compile(Symbol(c), a).final}]
  {
  }

  /** A part `m` of a fragment `n`, whose states from `mlo` on are kept by
      `n` except for `m`'s final one, is frozen wherever `n` is. */
  lemma FrozenPart(n: Nfa, lo: nat, B: Arena, m: Nfa, mlo: nat)
    requires Frozen(n, lo, B) && lo <= mlo && |m.states| <= |n.states|
    requires !(mlo <= n.final < |m.states|) || n.final == m.final
    requires forall q :: mlo <= q < |m.states| && q != m.final ==> n.states[q] == m.states[q]
    ensures Frozen(m, mlo, B)
  {
  }

  lemma ConcatFrozen(r1: Re, r2: Re, a: Arena, B: Arena)
    requires Frozen(Compile(Concat(r1, r2), a), |a|, B)
    ensures Frozen(Compile(r1, a), |a|, B)
    ensures Frozen(Compile(r2, Compile(r1, a).states), |Compile(r1, a).states|, B)
    ensures B[Compile(r1, a).final] == map[None := {Compile(r2, Compile(r1, a).states).start}]
  {
    var n1 := Compile(r1, a);
    var n2 := Compile(r2, n1.states);
    assert Compile(Concat(r1, r2), a) == ConcatNfa(a, n1, n2);
    ConcatParts(a, n1, n2, B);
  }

  lemma ConcatParts(a: Arena, n1: Nfa, n2: Nfa, B: Arena)
    requires Keeps(a, n1.states) && Fragment(n1, |a|)
    requires Keeps(n1.states, n2.states) && Fragment(n2, |n1.states|)
    requires Frozen(ConcatNfa(a, n1, n2), |a|, B)
    ensures Frozen(n1, |a|, B) && Frozen(n2, |n1.states|, B)
    ensures B[n1.final] == map[None := {n2.start}]
  {
    var n := ConcatNfa(a, n1, n2);
    FrozenPart(n, |a|, B, n1, |a|);
    FrozenPart(n, |a|, B, n2, |n1.states|);
    assert B[n1.final] == n.states[n1.final];
  }

  lemma OrFrozen(r1: Re, r2: Re, a: Arena, B: Arena)
    requires Frozen(Compile(Or(r1, r2), a), |a|, B)
    ensures Frozen(Compile(r1, a), |a|, B)
    ensures Frozen(Compile(r2, Compile(r1, a).states), |Compile(r1, a).states|, B)
  {
    var n1 := Compile(r1, a);
    var n2 := Compile(r2, n1.states);
    assert Compile(Or(r1, r2), a) == OrNfa(a, n1, n2);
    OrParts(a, n1, n2, B);
  }

  lemma OrParts(a: Arena, n1: Nfa, n2: Nfa, B: Arena)
    requires Keeps(a, n1.states) && Fragment(n1, |a|)
    requires Keeps(n1.states, n2.states) && Fragment(n2, |n1.states|)
    requires Frozen(OrNfa(a, n1, n2), |a|, B)
    ensures Frozen(n1, |a|, B) && Frozen(n2, |n1.states|, B)
  {
    var n := OrNfa(a, n1, n2);
    FrozenPart(n, |a|, B, n1, |a|);
    FrozenPart(n, |a|, B, n2, |n1.states|);
  }

  lemma OrEdges(r1: Re, r2: Re, a: Arena, B: Arena)
    requires Frozen(Compile(Or(r1, r2), a), |a|, B)
    ensures B[Compile(Or(r1, r2), a).start]
         == map[None := {Compile(r1, a).start, Compile(r2, Compile(r1, a).states).start}]
    ensures B[Compile(r1, a).final] == map[None := {Compile(Or(r1, r2), a).final}]
    ensures B[Compile(r2, Compile(r1, a).states).final] == map[None := {Compile(Or(r1, r2), a).final}]
  {
  }

  lemma StarFrozen(r1: Re, a: Arena, B: Arena)
    requires Frozen(Compile(Star(r1), a), |a|, B)
    ensures Frozen(Compile(r1, a), |a|, B)
    ensures B[Compile(Star(r1), a).start] == map[None := {Compile(Star(r1), a).final, Compile(r1, a).start}]
    ensures B[Compile(r1, a).final] == map[None := {Compile(Star(r1), a).final, Compile(r1, a).start}]
  {
    var n1 := Compile(r1, a);
    var n := StarNfa(a, n1);
    assert n == Compile(Star(r1), a);
    FrozenPart(n, |a|, B, n1, |a|);
    assert B[n.start] == n.states[n.start];
    assert B[n1.final] == n.states[n1.final];
  }

  /* ---------- Soundness: every path to the final state spells a match ---------- */

  /** A run through the fragment of `r`, inside an arena where the
      fragment's edges are unchanged, spells a word `r` matches. */
  lemma {:induction false} Sound(r: Re, a: Arena, B: Arena, run: Run)
    requires Frozen(Compile(r, a), |a|, B)
    requires Through(B, run, Compile(r, a).start, Compile(r, a).final)
    ensures Matches(r, Spell(run.labels))
    decreases r, |run.states|, 1
  {
    match r
    case Symbol(c) =>
      SymbolFrozen(c, a, B);
      SymbolRun(B, run, c);
    case Concat(r1, r2) => SoundConcat(r1, r2, a, B, run);
    case Or(r1, r2) => SoundOr(r1, r2, a, B, run);
    case Star(r1) => SoundStar(r1, a, B, run);
  }

  /** A run that leaves its first state only along one edge labelled `c`
      into its last state spells `[c]`. */
  lemma SymbolRun(B: Arena, run: Run, c: char)
    requires ValidRun(B, run) && run.states[0] != Last(run)
    requires forall i :: 0 <= i < |run.labels| ==> run.states[i] != Last(run)
    requires run.states[0] < |B| && B[run.states[0]] == map[Some(c) := {Last(run)}]
    ensures Spell(run.labels) == [c]
  {
    assert run.states[1] in Succ(B, run.states[0], run.labels[0]);
    assert run.labels[0] == Some(c) && run.states[1] == Last(run);
    assert run.labels == [Some(c)];
    SpellOne(Some(c));
  }

  /** Leaving the fragment of `r1`: the run reaches the fragment's final state
      at `j`, spelling a match of `r1` on the way. */
  lemma {:induction false} Leave(r1: Re, a: Arena, B: Arena, run: Run) returns (j: nat)
    requires Frozen(Compile(r1, a), |a|, B)
    requires ValidRun(B, run) && run.states[0] == Compile(r1, a).start
    requires !(|a| <= Last(run) < |Compile(r1, a).states|)
    ensures j < |run.labels| && run.states[j] == Compile(r1, a).final
    ensures Matches(r1, Spell(Part(run, 0, j).labels))
    decreases r1, |run.states|, 2
  {
    var n1 := Compile(r1, a);
    FrozenExits(n1, |a|, B);
    j := ThroughPrefix(B, run, |a|, |n1.states|, n1.final);
    Sound(r1, a, B, Part(run, 0, j));
  }

  /** A run from inside `[lo, hi)` to outside it, where only `f` has edges
      leaving the range, visits `f`; its part up to the first visit is a run
      through to `f`. */
  lemma ThroughPrefix(B: Arena, run: Run, lo: nat, hi: nat, f: nat) returns (j: nat)
    requires ValidRun(B, run) && Exits(B, lo, hi, f)
    requires lo <= run.states[0] < hi && run.states[0] != f
    requires lo <= f < hi && !(lo <= Last(run) < hi)
    ensures j < |run.labels| && run.states[j] == f
    ensures Through(B, Part(run, 0, j), run.states[0], f)
  {
    j := FirstVisit(B, run, lo, hi, f);
    PartRun(B, run, 0, j);
    var pre := Part(run, 0, j);
    assert forall i :: 0 <= i < |pre.labels| ==> pre.states[i] == run.states[i];
  }

  lemma {:induction false} SoundConcat(r1: Re, r2: Re, a: Arena, B: Arena, run: Run)
    requires Frozen(Compile(Concat(r1, r2), a), |a|, B)
    requires Through(B, run, Compile(Concat(r1, r2), a).start, Compile(Concat(r1, r2), a).final)
    ensures Matches(Concat(r1, r2), Spell(run.labels))
    decreases Concat(r1, r2), |run.states|, 0
  {
    var n1 := Compile(r1, a);
    var n2 := Compile(r2, n1.states);
    ConcatFrozen(r1, r2, a, B);
    var j := Leave(r1, a, B, run);
    var post := EpsStep(B, run, j, {n2.start});
    Sound(r2, n1.states, B, post);
    ConcatIntro(r1, r2, Spell(Part(run, 0, j).labels), Spell(post.labels));
  }

  /** A run whose state at `j` has a single epsilon edge, into the run's
      last state, which the run reaches only at its end: the run ends right
      after `j` and spells what it spelled up to `j`. */
  lemma ExitTo(B: Arena, run: Run, j: nat, f: nat)
    requires ValidRun(B, run) && Last(run) == f && j < |run.labels|
    requires forall i :: 0 <= i < |run.labels| ==> run.states[i] != f
    requires run.states[j] < |B| && B[run.states[j]] == map[None := {f}]
    ensures Spell(run.labels) == Spell(Part(run, 0, j).labels)
  {
    var post := EpsStep(B, run, j, {f});
    assert |post.labels| == 0;
    assert Spell(run.labels) == Spell(Part(run, 0, j).labels) + [];
  }

  /** One branch of an alternation: a run through the fragment of `ri`, whose
      final state leads only to `f`, ending at `f`. */
  lemma {:induction false} Branch(ri: Re, lo: Arena, B: Arena, run: Run, f: nat)
    requires Frozen(Compile(ri, lo), |lo|, B)
    requires Through(B, run, Compile(ri, lo).start, f)
    requires !(|lo| <= f < |Compile(ri, lo).states|)
    requires B[Compile(ri, lo).final] == map[None := {f}]
    ensures Matches(ri, Spell(run.labels))
    decreases ri, |run.states|, 3
  {
    var j := Leave(ri, lo, B, run);
    ExitTo(B, run, j, f);
  }

  lemma {:induction false} SoundOr(r1: Re, r2: Re, a: Arena, B: Arena, run: Run)
    requires Frozen(Compile(Or(r1, r2), a), |a|, B)
    requires Through(B, run, Compile(Or(r1, r2), a).start, Compile(Or(r1, r2), a).final)
    ensures Matches(Or(r1, r2), Spell(run.labels))
    decreases Or(r1, r2), |run.states|, 0
  {
    OrEdges(r1, r2, a, B);
    var post := EpsFirst(B, run, Compile(Or(r1, r2), a).final,
                         {Compile(r1, a).start, Compile(r2, Compile(r1, a).states).start});
    OrBranch(r1, r2, a, B, post);
  }

  /** After the alternation's first epsilon edge: a run from either part's
      start to the alternation's final state. */
  lemma {:induction false} OrBranch(r1: Re, r2: Re, a: Arena, B: Arena, run: Run)
    requires Frozen(Compile(Or(r1, r2), a), |a|, B)
    requires |run.states| > 0 && Through(B, run, run.states[0], Compile(Or(r1, r2), a).final)
    requires run.states[0] in {Compile(r1, a).start, Compile(r2, Compile(r1, a).states).start}
    ensures Matches(Or(r1, r2), Spell(run.labels))
    decreases Or(r1, r2), |run.states|, 0
  {
    var n1 := Compile(r1, a);
    OrFrozen(r1, r2, a, B);
    OrEdges(r1, r2, a, B);
    if run.states[0] == n1.start {
      Branch(r1, a, B, run, Compile(Or(r1, r2), a).final);
    } else {
      Branch(r2, n1.states, B, run, Compile(Or(r1, r2), a).final);
    }
  }

  lemma {:induction false} SoundStar(r1: Re, a: Arena, B: Arena, run: Run)
    requires Frozen(Compile(Star(r1), a), |a|, B)
    requires Through(B, run, Compile(Star(r1), a).start, Compile(Star(r1), a).final)
    ensures Matches(Star(r1), Spell(run.labels))
    decreases Star(r1), |run.states|, 0
  {
    var n := Compile(Star(r1), a);
    StarFrozen(r1, a, B);
    var post := EpsFirst(B, run, n.final, {n.final, Compile(r1, a).start});
    if post.states[0] == n.final {
      assert |post.labels| == 0;
    } else {
      StarLoop(r1, a, B, post);
    }
  }

  /** Inside a star: a run from the inner fragment's start to the star's
      final state passes through the inner fragment one or more times. */
  lemma {:induction false} StarLoop(r1: Re, a: Arena, B: Arena, run: Run)
    requires Frozen(Compile(Star(r1), a), |a|, B)
    requires Through(B, run, Compile(r1, a).start, Compile(Star(r1), a).final)
    ensures Matches(Star(r1), Spell(run.labels))
    decreases Star(r1), |run.states|, 0
  {
    var n1 := Compile(r1, a);
    var n := Compile(Star(r1), a);
    StarFrozen(r1, a, B);
    var j := Leave(r1, a, B, run);
    var post := EpsStep(B, run, j, {n.final, n1.start});
    var w1 := Spell(Part(run, 0, j).labels);
    if post.states[0] == n.final {
      assert |post.labels| == 0;
      StarCons(r1, w1, []);
      assert w1 + [] == w1;
    } else {
      StarLoop(r1, a, B, post);
      StarCons(r1, w1, Spell(post.labels));
    }
  }

  /* ---------- Completeness: every match has a path ---------- */

  lemma ExtendsWhere(b: Arena, d: Arena)
    requires |b| <= |d|
    requires forall q :: 0 <= q < |b| ==> d[q] == b[q] || b[q] == map[]
    ensures Extends(b, d)
  {
  }

  /** The arenas of the two parts are contained in the whole one. */
  lemma PairExtends(r1: Re, r2: Re, a: Arena, n: Nfa)
    requires n == Compile(Concat(r1, r2), a) || n == Compile(Or(r1, r2), a)
    ensures Extends(Compile(r1, a).states, n.states)
    ensures Extends(Compile(r2, Compile(r1, a).states).states, n.states)
  {
    var n1 := Compile(r1, a);
    PartsExtend(a, n1, Compile(r2, n1.states), n.states);
  }

  /** Two consecutive fragments are contained in an arena that keeps every
      state of the second one except the two finals. */
  lemma PartsExtend(a: Arena, n1: Nfa, n2: Nfa, b: Arena)
    requires Keeps(a, n1.states) && Fragment(n1, |a|)
    requires Keeps(n1.states, n2.states) && Fragment(n2, |n1.states|)
    requires |n2.states| <= |b|
    requires forall q :: 0 <= q < |n2.states| && q != n1.final && q != n2.final ==> b[q] == n2.states[q]
    ensures Extends(n1.states, b) && Extends(n2.states, b)
  {
    KeepsAt(n1.states, n2.states, n1.final);
    ExtendsWhere(n2.states, b);
    ExtendsByPrefix(n1.states, n2.states);
    ExtendsTrans(n1.states, n2.states, b);
  }

  lemma StarExtends(r1: Re, a: Arena)
    ensures Extends(Compile(r1, a).states, Compile(Star(r1), a).states)
  {
    ExtendsWhere(Compile(r1, a).states, Compile(Star(r1), a).states);
  }

  /** Two runs joined by an epsilon edge from the end of the first to the
      start of the second spell the two words one after the other. */
  lemma Splice(B: Arena, r1: Run, r2: Run) returns (run: Run)
    requires ValidRun(B, r1) && ValidRun(B, r2)
    requires Last(r1) < |B| && None in B[Last(r1)] && r2.states[0] in B[Last(r1)][None]
    ensures RunOf(B, run, r1.states[0], Last(r2), Spell(r1.labels) + Spell(r2.labels))
  {
    var e := Edge(Last(r1), None, r2.states[0]);
    SpellOne(None);
    JoinRun(B, r1, e);
    JoinRun(B, Join(r1, e), r2);
    run := Join(Join(r1, e), r2);
  }

  /** Every word `r` matches is spelled by a path from the start to the final
      state of its fragment. */
  lemma {:induction false} Complete(r: Re, a: Arena, w: string) returns (run: Run)
    requires Matches(r, w)
    ensures RunOf(Compile(r, a).states, run, Compile(r, a).start, Compile(r, a).final, w)
    decreases r, |w|, 1
  {
    match r
    case Symbol(c) =>
      run := Edge(Compile(r, a).start, Some(c), Compile(r, a).final);
      SpellOne(Some(c));
    case Concat(r1, r2) => run := CompleteConcat(r1, r2, a, w);
    case Or(r1, r2) => run := CompleteOr(r1, r2, a, w);
    case Star(r1) =>
      if w == [] {
        run := StarEmpty(r1, a);
      } else {
        var tail := StarTail(r1, a, w);
        run := StarEntry(r1, a, w, tail);
      }
  }

  lemma StarEmpty(r1: Re, a: Arena) returns (run: Run)
    ensures RunOf(Compile(Star(r1), a).states, run, Compile(Star(r1), a).start, Compile(Star(r1), a).final, [])
  {
    var n := Compile(Star(r1), a);
    run := Splice(n.states, Stay(n.start), Stay(n.final));
  }

  lemma {:induction false} CompleteConcat(r1: Re, r2: Re, a: Arena, w: string) returns (run: Run)
    requires Matches(Concat(r1, r2), w)
    ensures RunOf(Compile(Concat(r1, r2), a).states, run,
                  Compile(Concat(r1, r2), a).start, Compile(Concat(r1, r2), a).final, w)
    decreases Concat(r1, r2), |w|, 0
  {
    var k := ConcatSplit(r1, r2, w);
    var run1 := Complete(r1, a, w[..k]);
    var run2 := Complete(r2, Compile(r1, a).states, w[k..]);
    run := ConcatGlue(r1, r2, a, run1, run2);
    SplitJoin(w, k);
  }

  lemma ConcatSplit(r1: Re, r2: Re, w: string) returns (k: nat)
    requires Matches(Concat(r1, r2), w)
    ensures k <= |w| && Matches(r1, w[..k]) && Matches(r2, w[k..])
  {
    k :| 0 <= k <= |w| && Matches(r1, w[..k]) && Matches(r2, w[k..]);
  }

  lemma ConcatGlue(r1: Re, r2: Re, a: Arena, run1: Run, run2: Run) returns (run: Run)
    requires ValidRun(Compile(r1, a).states, run1) && ValidRun(Compile(r2, Compile(r1, a).states).states, run2)
    requires run1.states[0] == Compile(r1, a).start && Last(run1) == Compile(r1, a).final
    requires run2.states[0] == Compile(r2, Compile(r1, a).states).start
    requires Last(run2) == Compile(r2, Compile(r1, a).states).final
    ensures RunOf(Compile(Concat(r1, r2), a).states, run, Compile(Concat(r1, r2), a).start,
                  Compile(Concat(r1, r2), a).final, Spell(run1.labels) + Spell(run2.labels))
  {
    var n := Compile(Concat(r1, r2), a);
    PairExtends(r1, r2, a, n);
    LiftRun(Compile(r1, a).states, n.states, run1);
    LiftRun(Compile(r2, Compile(r1, a).states).states, n.states, run2);
    run := Splice(n.states, run1, run2);
  }

  lemma {:induction false} CompleteOr(r1: Re, r2: Re, a: Arena, w: string) returns (run: Run)
    requires Matches(Or(r1, r2), w)
    ensures RunOf(Compile(Or(r1, r2), a).states, run,
                  Compile(Or(r1, r2), a).start, Compile(Or(r1, r2), a).final, w)
    decreases Or(r1, r2), |w|, 0
  {
    var n := Compile(Or(r1, r2), a);
    var n1 := Compile(r1, a);
    var n2 := Compile(r2, n1.states);
    var inner: Run;
    if Matches(r1, w) {
      inner := Complete(r1, a, w);
      PairExtends(r1, r2, a, n);
      LiftRun(n1.states, n.states, inner);
    } else {
      inner := Complete(r2, n1.states, w);
      PairExtends(r1, r2, a, n);
      LiftRun(n2.states, n.states, inner);
    }
    run := Wrap(n.states, n.start, inner, n.final);
  }

  /** A run entered by an epsilon edge from `p` and left by one into `q`. */
  lemma Wrap(B: Arena, p: nat, inner: Run, q: nat) returns (run: Run)
    requires ValidRun(B, inner)
    requires p < |B| && None in B[p] && inner.states[0] in B[p][None]
    requires Last(inner) < |B| && None in B[Last(inner)] && q in B[Last(inner)][None]
    ensures RunOf(B, run, p, q, Spell(inner.labels))
  {
    var r1 := Splice(B, Stay(p), inner);
    run := Splice(B, r1, Stay(q));
    assert [] + Spell(inner.labels) + [] == Spell(inner.labels);
  }

  lemma StarSplit(r1: Re, w: string) returns (k: nat)
    requires Matches(Star(r1), w) && w != []
    ensures 1 <= k <= |w| && Matches(r1, w[..k]) && Matches(Star(r1), w[k..])
  {
    k :| 1 <= k <= |w| && Matches(r1, w[..k]) && Matches(Star(r1), w[k..]);
  }

  /** Entering a star's inner fragment from the star's start state. */
  lemma StarEntry(r1: Re, a: Arena, w: string, tail: Run) returns (run: Run)
    requires RunOf(Compile(Star(r1), a).states, tail, Compile(r1, a).start, Compile(Star(r1), a).final, w)
    ensures RunOf(Compile(Star(r1), a).states, run, Compile(Star(r1), a).start, Compile(Star(r1), a).final, w)
  {
    var n := Compile(Star(r1), a);
    run := Splice(n.states, Stay(n.start), tail);
  }

  /** A non-empty word in the star's language is spelled by a path from the
      inner fragment's start to the star's final state, looping back through
      the inner final state between pieces. */
  lemma {:induction false} StarTail(r1: Re, a: Arena, w: string) returns (run: Run)
    requires Matches(Star(r1), w) && w != []
    ensures RunOf(Compile(Star(r1), a).states, run, Compile(r1, a).start, Compile(Star(r1), a).final, w)
    decreases Star(r1), |w|, 0
  {
    var n1 := Compile(r1, a);
    var n := Compile(Star(r1), a);
    var k := StarSplit(r1, w);
    var run1 := Complete(r1, a, w[..k]);
    StarExtends(r1, a);
    LiftRun(n1.states, n.states, run1);
    var rest: Run;
    if k == |w| {
      rest := Stay(n.final);
    } else {
      rest := StarTail(r1, a, w[k..]);
    }
    run := Splice(n.states, run1, rest);
    SplitJoin(w, k);
  }

  /* ---------- The whole automaton ---------- */

  /** `re.to_nfa()` for the parsed pattern, starting from no states. */
  function ToNfa(r: Re): (n: Nfa)
    ensures |n.states| == StateCount(r)
    ensures WellFormed(n.states)
    ensures n.start != n.final && n.final < |n.states| && n.states[n.final] == map[]
  {
    Compile(r, [])
  }

  /** The final state has no edges, so a run reaches it only at its end. */
  lemma FinalOnlyAtEnd(n: Nfa, run: Run)
    requires ValidRun(n.states, run) && n.final < |n.states| && n.states[n.final] == map[]
    ensures forall i :: 0 <= i < |run.labels| ==> run.states[i] != n.final
  {
    forall i | 0 <= i < |run.labels|
      ensures run.states[i] != n.final
    {
      assert run.states[i + 1] in Succ(n.states, run.states[i], run.labels[i]);
    }
  }

  /** Thompson's construction is correct: a path from start to final spells
      `w` exactly when the tree matches `w`. */
  lemma ThompsonCorrect(r: Re, w: string)
    ensures Reaches(ToNfa(r).states, ToNfa(r).start, ToNfa(r).final, w) <==> Matches(r, w)
  {
    var n := ToNfa(r);
    if Reaches(n.states, n.start, n.final, w) {
      var run :| RunOf(n.states, run, n.start, n.final, w);
      FinalOnlyAtEnd(n, run);
      Sound(r, [], n.states, run);
    }
    if Matches(r, w) {
      var run := Complete(r, [], w);
    }
  }

  /** The simulation accepts `w` exactly when the tree matches `w`. */
  lemma AcceptsIffMatches(r: Re, w: string)
    ensures ToNfa(r).final in Active(ToNfa(r).states, ToNfa(r).start, w) <==> Matches(r, w)
  {
    var n := ToNfa(r);
    ActiveReaches(n.states, n.start, w, n.final);
    ThompsonCorrect(r, w);
  }
}
