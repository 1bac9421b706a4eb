/** The expression tree produced by the parser and consumed by the compiler,
    the language each tree denotes, and the tree printer of `rep.py`. */
module Syntax {

  /** One node of a parsed pattern: `RESymbol`, `REConcat`, `REOr` and `REStar`. */
  datatype Re =
    | Symbol(c: char)
    | Concat(left: Re, right: Re)
    | Or(left: Re, right: Re)
    | Star(inner: Re)

  /** The language of a tree: `Symbol c` is {c}, `Concat` concatenation,
      `Or` union, `Star` the Kleene closure. A non-empty word in the closure
      is split off with a non-empty first piece, which keeps the definition
      well founded and denotes the same set of words. */
  predicate Matches(r: Re, w: string)
    decreases r, |w|
  {
    match r
    case Symbol(c) => w == [c]
    case Concat(r1, r2) => exists k :: 0 <= k <= |w| && Matches(r1, w[..k]) && Matches(r2, w[k..])
    case Or(r1, r2) => Matches(r1, w) || Matches(r2, w)
    case Star(r1) => w == [] || exists k :: 1 <= k <= |w| && Matches(r1, w[..k]) && Matches(r, w[k..])
  }

  /** The number of automaton states the compiler allocates for a tree:
      two fresh states for every `Symbol`, `Or` and `Star`, none for `Concat`. */
  function StateCount(r: Re): nat {
    match r
    case Symbol(_) => 2
    case Concat(r1, r2) => StateCount(r1) + StateCount(r2)
    case Or(r1, r2) => 2 + StateCount(r1) + StateCount(r2)
    case Star(r1) => 2 + StateCount(r1)
  }

  /** The fully parenthesised rendering of the `__str__` methods. */
  function Show(r: Re): string {
    match r
    case Symbol(c) => [c]
    case Concat(r1, r2) => "(" + Show(r1) + Show(r2) + ")"
    case Or(r1, r2) => "(" + Show(r1) + "|" + Show(r2) + ")"
    case Star(r1) => Show(r1) + "*"
  }

  /** The characters the parser treats as the end of a concatenation. */
  const Reserved: set<char> := {'|', '*', ')'}

  /** A tree whose `Show` rendering reads back as itself: its symbols are
      neither reserved nor `(`, and no `Star` directly wraps another `Star`
      (`a**` reads back as `a*` followed by an unread `*`). */
  predicate Printable(r: Re) {
    match r
    case Symbol(c) => c !in Reserved && c != '('
    case Concat(r1, r2) => Printable(r1) && Printable(r2)
    case Or(r1, r2) => Printable(r1) && Printable(r2)
    case Star(r1) => !r1.Star? && Printable(r1)
  }
}
