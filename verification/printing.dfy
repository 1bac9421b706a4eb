/** Printed forms of a tree that the parser reads back as the same tree:
    the fully parenthesised `__str__` rendering of `rep.py`, and
    a rendering with the fewest parentheses the grammar allows, whose round
    trip pins down precedence and associativity. */
module Printing {
  import opened Wrappers
  import opened Syntax
  import opened Parser

  /* ---------- One step of each parse function ---------- */

  lemma ReOr(u: string, pos: nat, a: Re, p: nat, b: Re, e: nat)
    requires ParseConcat(u, pos) == Success((a, p)) && Look(u, p) == Some('|')
    requires ParseRe(u, p + 1) == Success((b, e))
    ensures ParseRe(u, pos) == Success((Or(a, b), e))
  {
  }

  lemma ReSingle(u: string, pos: nat, a: Re, p: nat)
    requires ParseConcat(u, pos) == Success((a, p)) && Look(u, p) != Some('|')
    ensures ParseRe(u, pos) == Success((a, p))
  {
  }

  lemma ConcatSingle(u: string, pos: nat, a: Re, p: nat)
    requires ParseStar(u, pos) == Success((a, p)) && StopsConcat(u, p)
    ensures ParseConcat(u, pos) == Success((a, p))
  {
  }

  lemma ConcatMore(u: string, pos: nat, a: Re, p: nat, b: Re, e: nat)
    requires ParseStar(u, pos) == Success((a, p)) && !StopsConcat(u, p)
    requires ParseConcat(u, p) == Success((b, e))
    ensures ParseConcat(u, pos) == Success((Concat(a, b), e))
  {
  }

  lemma StarApplied(u: string, pos: nat, a: Re, p: nat)
    requires ParseAtomic(u, pos) == Success((a, p)) && Look(u, p) == Some('*')
    ensures ParseStar(u, pos) == Success((Star(a), p + 1))
  {
  }

  lemma StarAbsent(u: string, pos: nat, a: Re, p: nat)
    requires ParseAtomic(u, pos) == Success((a, p)) && Look(u, p) != Some('*')
    ensures ParseStar(u, pos) == Success((a, p))
  {
  }

  lemma AtomGroup(u: string, pos: nat, a: Re, p: nat)
    requires Look(u, pos) == Some('(') && ParseRe(u, pos + 1) == Success((a, p))
    requires Look(u, p) == Some(')')
    ensures ParseAtomic(u, pos) == Success((a, p + 1))
  {
  }

  /** `(` concat `|` regex `)` read as one atom. */
  lemma GroupOr(u: string, pos: nat, a: Re, p: nat, b: Re, e: nat)
    requires Look(u, pos) == Some('(')
    requires ParseConcat(u, pos + 1) == Success((a, p)) && Look(u, p) == Some('|')
    requires ParseRe(u, p + 1) == Success((b, e)) && Look(u, e) == Some(')')
    ensures ParseAtomic(u, pos) == Success((Or(a, b), e + 1))
  {
    ReOr(u, pos + 1, a, p, b, e);
    AtomGroup(u, pos, Or(a, b), e);
  }

  /** `(` star concat `)` read as one atom. */
  lemma GroupConcat(u: string, pos: nat, a: Re, p: nat, b: Re, e: nat)
    requires Look(u, pos) == Some('(')
    requires ParseStar(u, pos + 1) == Success((a, p)) && !StopsConcat(u, p)
    requires ParseConcat(u, p) == Success((b, e)) && Look(u, e) == Some(')')
    ensures ParseAtomic(u, pos) == Success((Concat(a, b), e + 1))
  {
    ConcatMore(u, pos + 1, a, p, b, e);
    ReSingle(u, pos + 1, Concat(a, b), e);
    AtomGroup(u, pos, Concat(a, b), e);
  }

  /** `(` atom `*` `)` read as one atom. */
  lemma GroupStar(u: string, pos: nat, a: Re, p: nat)
    requires Look(u, pos) == Some('(')
    requires ParseAtomic(u, pos + 1) == Success((a, p)) && Look(u, p) == Some('*')
    requires Look(u, p + 1) == Some(')')
    ensures ParseAtomic(u, pos) == Success((Star(a), p + 2))
  {
    StarApplied(u, pos + 1, a, p);
    ConcatSingle(u, pos + 1, Star(a), p + 1);
    ReSingle(u, pos + 1, Star(a), p + 1);
    AtomGroup(u, pos, Star(a), p + 1);
  }

  /* ---------- Where a printed piece sits in the input ---------- */

  /** `u` holds `w` at `pos`. */
  predicate At(u: string, pos: nat, w: string) {
    pos + |w| <= |u| && forall i :: 0 <= i < |w| ==> u[pos + i] == w[i]
  }

  lemma AtSplit(u: string, pos: nat, a: string, b: string)
    requires At(u, pos, a + b)
    ensures At(u, pos, a) && At(u, pos + |a|, b)
  {
    forall i | 0 <= i < |a| ensures u[pos + i] == a[i] {
      assert (a + b)[i] == a[i];
    }
    forall i | 0 <= i < |b| ensures u[pos + |a| + i] == b[i] {
      assert (a + b)[|a| + i] == b[i];
    }
  }

  lemma AtHead(u: string, pos: nat, w: string)
    requires At(u, pos, w) && |w| > 0
    ensures Look(u, pos) == Some(w[0])
  {
    assert u[pos + 0] == w[0];
  }

  lemma AtGroup(u: string, pos: nat, m: string)
    requires At(u, pos, "(" + m + ")")
    ensures Look(u, pos) == Some('(')
    ensures At(u, pos + 1, m)
    ensures Look(u, pos + 1 + |m|) == Some(')')
  {
    AtSplit(u, pos, "(" + m, ")");
    AtSplit(u, pos, "(", m);
    AtHead(u, pos, "(");
    AtHead(u, pos + 1 + |m|, ")");
  }

  /* ---------- The `__str__` rendering ---------- */

  /** The first character of a printed tree never ends a concatenation. */
  lemma {:induction false} ShowHead(x: Re)
    requires Printable(x)
    ensures |Show(x)| > 0 && Show(x)[0] !in Reserved
  {
    if x.Star? {
      ShowHead(x.inner);
    }
  }

  lemma {:induction false} ShowAtomic(x: Re, u: string, pos: nat)
    requires Printable(x) && !x.Star? && At(u, pos, Show(x))
    ensures ParseAtomic(u, pos) == Success((x, pos + |Show(x)|))
    decreases x, 0
  {
    match x
    case Symbol(c) =>
      AtHead(u, pos, Show(x));
    case Concat(a, b) =>
      ShowGroupConcat(a, b, u, pos);
    case Or(a, b) =>
      ShowGroupOr(a, b, u, pos);
  }

  /** The layout of `(a b)` and `(a|b)`: an open parenthesis, the first
      piece, an optional separator, the second piece, a close parenthesis. */
  predicate Group(u: string, pos: nat, sa: string, sep: string, sb: string) {
    && Look(u, pos) == Some('(')
    && At(u, pos + 1, sa)
    && At(u, pos + 1 + |sa|, sep)
    && At(u, pos + 1 + |sa| + |sep|, sb)
    && Look(u, pos + 1 + |sa| + |sep| + |sb|) == Some(')')
  }

  lemma GroupLayout(u: string, pos: nat, sa: string, sep: string, sb: string)
    requires At(u, pos, "(" + (sa + sep + sb) + ")")
    ensures Group(u, pos, sa, sep, sb)
  {
    AtGroup(u, pos, sa + sep + sb);
    AtSplit(u, pos + 1, sa + sep, sb);
    AtSplit(u, pos + 1, sa, sep);
  }

  lemma {:induction false} ShowGroupConcat(a: Re, b: Re, u: string, pos: nat)
    requires Printable(a) && Printable(b) && At(u, pos, Show(Concat(a, b)))
    ensures ParseAtomic(u, pos) == Success((Concat(a, b), pos + |Show(Concat(a, b))|))
    decreases Concat(a, b), 0, 1
  {
    assert Show(Concat(a, b)) == "(" + (Show(a) + [] + Show(b)) + ")";
    GroupLayout(u, pos, Show(a), [], Show(b));
    ShowParsesConcat(a, b, u, pos);
  }

  lemma {:induction false} ShowParsesConcat(a: Re, b: Re, u: string, pos: nat)
    requires Printable(a) && Printable(b) && Group(u, pos, Show(a), [], Show(b))
    ensures ParseAtomic(u, pos) == Success((Concat(a, b), pos + 2 + |Show(a)| + |Show(b)|))
    decreases Concat(a, b), 0, 0
  {
    var p := pos + 1 + |Show(a)|;
    var e := p + |Show(b)|;
    ShowHead(b);
    AtHead(u, p, Show(b));
    ShowStar(a, u, pos + 1);
    ShowConcat(b, u, p);
    GroupConcat(u, pos, a, p, b, e);
  }

  lemma {:induction false} ShowGroupOr(a: Re, b: Re, u: string, pos: nat)
    requires Printable(a) && Printable(b) && At(u, pos, Show(Or(a, b)))
    ensures ParseAtomic(u, pos) == Success((Or(a, b), pos + |Show(Or(a, b))|))
    decreases Or(a, b), 0, 2
  {
    assert Show(Or(a, b)) == "(" + (Show(a) + "|" + Show(b)) + ")";
    GroupLayout(u, pos, Show(a), "|", Show(b));
    ShowParsesOr(a, b, u, pos);
  }

  lemma {:induction false} ShowParsesOr(a: Re, b: Re, u: string, pos: nat)
    requires Printable(a) && Printable(b) && Group(u, pos, Show(a), "|", Show(b))
    ensures ParseAtomic(u, pos) == Success((Or(a, b), pos + 3 + |Show(a)| + |Show(b)|))
    decreases Or(a, b), 0, 1
  {
    var p := pos + 1 + |Show(a)|;
    var e := p + 1 + |Show(b)|;
    OrLeft(a, b, u, pos, p);
    OrRight(a, b, u, pos, p, e);
    GroupOr(u, pos, a, p, b, e);
  }

  /** The left half of a printed alternation, up to the `|` at `p`. */
  lemma {:induction false} OrLeft(a: Re, b: Re, u: string, pos: nat, p: nat)
    requires Printable(a) && Group(u, pos, Show(a), "|", Show(b))
    requires p == pos + 1 + |Show(a)|
    ensures ParseConcat(u, pos + 1) == Success((a, p)) && Look(u, p) == Some('|')
    decreases Or(a, b), 0, 0
  {
    AtHead(u, p, "|");
    assert StopsConcat(u, p);
    ShowConcat(a, u, pos + 1);
  }

  /** The right half of a printed alternation, from after the `|` at `p` to
      the `)` at `e`. */
  lemma {:induction false} OrRight(a: Re, b: Re, u: string, pos: nat, p: nat, e: nat)
    requires Printable(b) && Group(u, pos, Show(a), "|", Show(b))
    requires p == pos + 1 + |Show(a)| && e == p + 1 + |Show(b)|
    ensures ParseRe(u, p + 1) == Success((b, e)) && Look(u, e) == Some(')')
    decreases Or(a, b), 0, 0
  {
    assert |"|"| == 1;
    ShowRe(b, u, p + 1);
  }

  lemma {:induction false} ShowStar(x: Re, u: string, pos: nat)
    requires Printable(x) && At(u, pos, Show(x))
    requires x.Star? || Look(u, pos + |Show(x)|) != Some('*')
    ensures ParseStar(u, pos) == Success((x, pos + |Show(x)|))
    decreases x, 1
  {
    if x.Star? {
      var y := x.inner;
      AtSplit(u, pos, Show(y), "*");
      AtHead(u, pos + |Show(y)|, "*");
      ShowAtomic(y, u, pos);
      StarApplied(u, pos, y, pos + |Show(y)|);
    } else {
      ShowAtomic(x, u, pos);
      StarAbsent(u, pos, x, pos + |Show(x)|);
    }
  }

  lemma {:induction false} ShowConcat(x: Re, u: string, pos: nat)
    requires Printable(x) && At(u, pos, Show(x))
    requires StopsConcat(u, pos + |Show(x)|)
    requires x.Star? || Look(u, pos + |Show(x)|) != Some('*')
    ensures ParseConcat(u, pos) == Success((x, pos + |Show(x)|))
    decreases x, 2
  {
    ShowStar(x, u, pos);
    ConcatSingle(u, pos, x, pos + |Show(x)|);
  }

  lemma {:induction false} ShowRe(x: Re, u: string, pos: nat)
    requires Printable(x) && At(u, pos, Show(x))
    requires Look(u, pos + |Show(x)|) == None || Look(u, pos + |Show(x)|) == Some(')')
    ensures ParseRe(u, pos) == Success((x, pos + |Show(x)|))
    decreases x, 3
  {
    ShowConcat(x, u, pos);
    ReSingle(u, pos, x, pos + |Show(x)|);
  }

  /** The `__str__` rendering of a tree parses back to that tree, reading
      the whole rendering. */
  lemma ShowRoundTrip(x: Re)
    requires Printable(x)
    ensures ParseRe(Show(x), 0) == Success((x, |Show(x)|))
    ensures Parse(Show(x)) == Success(x)
  {
    ShowRe(x, Show(x), 0);
  }

  /* ---------- The rendering with the fewest parentheses ---------- */

  /** `|` is loosest and right-nested, concatenation is right-nested, and
      `*` binds tightest and applies to an atom. */
  function Render(x: Re): string
    decreases x, 3
  {
    match x
    case Or(a, b) => RenderConcat(a) + "|" + Render(b)
    case _ => RenderConcat(x)
  }

  function RenderConcat(x: Re): string
    decreases x, 2
  {
    match x
    case Concat(a, b) => RenderStar(a) + RenderConcat(b)
    case _ => RenderStar(x)
  }

  function RenderStar(x: Re): string
    decreases x, 1
  {
    match x
    case Star(y) => RenderAtom(y) + "*"
    case _ => RenderAtom(x)
  }

  function RenderAtom(x: Re): string
    decreases x, 0
  {
    match x
    case Symbol(c) => [c]
    case Concat(a, b) => "(" + (RenderStar(a) + [] + RenderConcat(b)) + ")"
    case Or(a, b) => "(" + (RenderConcat(a) + "|" + Render(b)) + ")"
    case Star(y) => "(" + (RenderAtom(y) + "*" + []) + ")"
  }

  /** Every symbol of the tree can be written as a literal. */
  predicate PlainSymbols(x: Re) {
    match x
    case Symbol(c) => c !in Reserved && c != '('
    case Concat(a, b) => PlainSymbols(a) && PlainSymbols(b)
    case Or(a, b) => PlainSymbols(a) && PlainSymbols(b)
    case Star(y) => PlainSymbols(y)
  }

  /** Every rendering starts with a character that does not end a concatenation. */
  lemma {:induction false} RenderHead(x: Re)
    requires PlainSymbols(x)
    ensures |RenderAtom(x)| > 0 && RenderAtom(x)[0] !in Reserved
    ensures |RenderStar(x)| > 0 && RenderStar(x)[0] !in Reserved
    ensures |RenderConcat(x)| > 0 && RenderConcat(x)[0] !in Reserved
    ensures |Render(x)| > 0 && Render(x)[0] !in Reserved
  {
    match x
    case Symbol(_) =>
    case Concat(a, b) =>
      RenderHead(a);
    case Or(a, b) =>
      RenderHead(a);
    case Star(y) =>
      RenderHead(y);
  }

  /** The characters that may follow a concatenation inside a rendering. */
  predicate Closes(u: string, e: nat) {
    Look(u, e) == None || Look(u, e) == Some('|') || Look(u, e) == Some(')')
  }

  lemma {:induction false} RenderAtomParses(x: Re, u: string, pos: nat)
    requires PlainSymbols(x) && At(u, pos, RenderAtom(x))
    ensures ParseAtomic(u, pos) == Success((x, pos + |RenderAtom(x)|))
    decreases x, 0
  {
    match x
    case Symbol(c) =>
      AtHead(u, pos, RenderAtom(x));
    case Concat(a, b) =>
      RenderGroupConcat(a, b, u, pos);
    case Or(a, b) =>
      RenderGroupOr(a, b, u, pos);
    case Star(y) =>
      RenderGroupStar(y, u, pos);
  }

  lemma {:induction false} RenderGroupConcat(a: Re, b: Re, u: string, pos: nat)
    requires PlainSymbols(a) && PlainSymbols(b) && At(u, pos, RenderAtom(Concat(a, b)))
    ensures ParseAtomic(u, pos) == Success((Concat(a, b), pos + |RenderAtom(Concat(a, b))|))
    decreases Concat(a, b), 0, 1
  {
    assert RenderAtom(Concat(a, b)) == "(" + (RenderStar(a) + [] + RenderConcat(b)) + ")";
    GroupLayout(u, pos, RenderStar(a), [], RenderConcat(b));
    RenderParsesConcat(a, b, u, pos);
  }

  lemma {:induction false} RenderParsesConcat(a: Re, b: Re, u: string, pos: nat)
    requires PlainSymbols(a) && PlainSymbols(b)
    requires Group(u, pos, RenderStar(a), [], RenderConcat(b))
    ensures ParseAtomic(u, pos) == Success((Concat(a, b), pos + 2 + |RenderStar(a)| + |RenderConcat(b)|))
    decreases Concat(a, b), 0, 0
  {
    var p := pos + 1 + |RenderStar(a)|;
    var e := p + |RenderConcat(b)|;
    RenderHead(b);
    AtHead(u, p, RenderConcat(b));
    RenderStarParses(a, u, pos + 1);
    RenderConcatParses(b, u, p);
    GroupConcat(u, pos, a, p, b, e);
  }

  lemma {:induction false} RenderGroupOr(a: Re, b: Re, u: string, pos: nat)
    requires PlainSymbols(a) && PlainSymbols(b) && At(u, pos, RenderAtom(Or(a, b)))
    ensures ParseAtomic(u, pos) == Success((Or(a, b), pos + |RenderAtom(Or(a, b))|))
    decreases Or(a, b), 0, 1
  {
    GroupLayout(u, pos, RenderConcat(a), "|", Render(b));
    RenderParsesOr(a, b, u, pos);
  }

  lemma {:induction false} RenderParsesOr(a: Re, b: Re, u: string, pos: nat)
    requires PlainSymbols(a) && PlainSymbols(b)
    requires Group(u, pos, RenderConcat(a), "|", Render(b))
    ensures ParseAtomic(u, pos) == Success((Or(a, b), pos + 3 + |RenderConcat(a)| + |Render(b)|))
    decreases Or(a, b), 0, 0
  {
    var p := pos + 1 + |RenderConcat(a)|;
    var e := p + 1 + |Render(b)|;
    AtHead(u, p, "|");
    RenderConcatParses(a, u, pos + 1);
    RenderParses(b, u, p + 1);
    GroupOr(u, pos, a, p, b, e);
  }

  lemma {:induction false} RenderGroupStar(y: Re, u: string, pos: nat)
    requires PlainSymbols(y) && At(u, pos, RenderAtom(Star(y)))
    ensures ParseAtomic(u, pos) == Success((Star(y), pos + |RenderAtom(Star(y))|))
    decreases Star(y), 0, 0
  {
    var sy := RenderAtom(y);
    assert RenderAtom(Star(y)) == "(" + (sy + "*" + []) + ")";
    GroupLayout(u, pos, sy, "*", []);
    var p := pos + 1 + |sy|;
    AtHead(u, p, "*");
    RenderAtomParses(y, u, pos + 1);
    GroupStar(u, pos, y, p);
  }

  lemma {:induction false} RenderStarParses(x: Re, u: string, pos: nat)
    requires PlainSymbols(x) && At(u, pos, RenderStar(x))
    requires Look(u, pos + |RenderStar(x)|) != Some('*')
    ensures ParseStar(u, pos) == Success((x, pos + |RenderStar(x)|))
    decreases x, 1
  {
    match x
    case Star(y) =>
      AtSplit(u, pos, RenderAtom(y), "*");
      AtHead(u, pos + |RenderAtom(y)|, "*");
      RenderAtomParses(y, u, pos);
      StarApplied(u, pos, y, pos + |RenderAtom(y)|);
    case _ =>
      RenderAtomParses(x, u, pos);
      StarAbsent(u, pos, x, pos + |RenderAtom(x)|);
  }

  lemma {:induction false} RenderConcatParses(x: Re, u: string, pos: nat)
    requires PlainSymbols(x) && At(u, pos, RenderConcat(x))
    requires Closes(u, pos + |RenderConcat(x)|)
    ensures ParseConcat(u, pos) == Success((x, pos + |RenderConcat(x)|))
    decreases x, 2, 1
  {
    match x
    case Concat(a, b) =>
      AtSplit(u, pos, RenderStar(a), RenderConcat(b));
      RenderConcatPair(a, b, u, pos);
    case _ =>
      RenderStarParses(x, u, pos);
      ConcatSingle(u, pos, x, pos + |RenderConcat(x)|);
  }

  lemma {:induction false} RenderConcatPair(a: Re, b: Re, u: string, pos: nat)
    requires PlainSymbols(a) && PlainSymbols(b)
    requires At(u, pos, RenderStar(a)) && At(u, pos + |RenderStar(a)|, RenderConcat(b))
    requires Closes(u, pos + |RenderStar(a)| + |RenderConcat(b)|)
    ensures ParseConcat(u, pos) == Success((Concat(a, b), pos + |RenderStar(a)| + |RenderConcat(b)|))
    decreases Concat(a, b), 2, 0
  {
    var p := pos + |RenderStar(a)|;
    RenderHead(b);
    AtHead(u, p, RenderConcat(b));
    RenderStarParses(a, u, pos);
    RenderConcatParses(b, u, p);
    ConcatMore(u, pos, a, p, b, p + |RenderConcat(b)|);
  }

  lemma {:induction false} RenderParses(x: Re, u: string, pos: nat)
    requires PlainSymbols(x) && At(u, pos, Render(x))
    requires Look(u, pos + |Render(x)|) == None || Look(u, pos + |Render(x)|) == Some(')')
    ensures ParseRe(u, pos) == Success((x, pos + |Render(x)|))
    decreases x, 3, 1
  {
    match x
    case Or(a, b) =>
      AtSplit(u, pos, RenderConcat(a) + "|", Render(b));
      AtSplit(u, pos, RenderConcat(a), "|");
      RenderOrPair(a, b, u, pos);
    case _ =>
      RenderConcatParses(x, u, pos);
      ReSingle(u, pos, x, pos + |Render(x)|);
  }

  lemma {:induction false} RenderOrPair(a: Re, b: Re, u: string, pos: nat)
    requires PlainSymbols(a) && PlainSymbols(b)
    requires At(u, pos, RenderConcat(a)) && At(u, pos + |RenderConcat(a)|, "|")
    requires At(u, pos + |RenderConcat(a)| + 1, Render(b))
    requires Look(u, pos + |RenderConcat(a)| + 1 + |Render(b)|) == None
          || Look(u, pos + |RenderConcat(a)| + 1 + |Render(b)|) == Some(')')
    ensures ParseRe(u, pos) == Success((Or(a, b), pos + |RenderConcat(a)| + 1 + |Render(b)|))
    decreases Or(a, b), 3, 0
  {
    var p := pos + |RenderConcat(a)|;
    AtHead(u, p, "|");
    RenderConcatParses(a, u, pos);
    RenderParses(b, u, p + 1);
    ReOr(u, pos, a, p, b, p + 1 + |Render(b)|);
  }

  /** Operator precedence and associativity: the rendering with the fewest
      parentheses parses back to the tree it came from. */
  lemma RenderRoundTrip(x: Re)
    requires PlainSymbols(x)
    ensures ParseRe(Render(x), 0) == Success((x, |Render(x)|))
    ensures Parse(Render(x)) == Success(x)
  {
    RenderParses(x, Render(x), 0);
  }
}
