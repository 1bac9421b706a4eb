/** Properties of the parser: what part of the pattern a parse depends on,
    that the pattern after the top-level parse is ignored, that the trees'
    own printed form reads back as the same tree, and the error cases. */
module ParserLaws {
  import opened Wrappers
  import opened Syntax
  import opened Parser

  /** Two patterns agree on `[pos, e)` and show the same lookahead at `e`. */
  predicate Agree(s: string, u: string, pos: nat, e: nat) {
    && pos <= e <= |s|
    && e <= |u|
    && s[pos..e] == u[pos..e]
    && Look(s, e) == Look(u, e)
  }

  lemma AgreeNarrow(s: string, u: string, pos: nat, e: nat, p: nat, q: nat)
    requires Agree(s, u, pos, e)
    requires pos <= p <= q <= e
    ensures Agree(s, u, p, q)
  {
    forall i | p <= i < q
      ensures s[i] == u[i]
    {
      assert s[i] == s[pos..e][i - pos] && u[i] == u[pos..e][i - pos];
    }
    assert s[p..q] == u[p..q];
    if q < e {
      assert s[q] == s[pos..e][q - pos];
      assert u[q] == u[pos..e][q - pos];
    }
  }

  /** A parse from `pos` that ends at `e` reads only `[pos, e]`: any pattern
      that agrees there parses the same way. */
  lemma {:induction false} ReLocal(s: string, u: string, pos: nat)
    requires ParseRe(s, pos).Success?
    requires Agree(s, u, pos, ParseRe(s, pos).value.1)
    ensures ParseRe(u, pos) == ParseRe(s, pos)
    decreases Remaining(s, pos), 3
  {
    var e := ParseRe(s, pos).value.1;
    var p := ParseConcat(s, pos).value.1;
    AgreeNarrow(s, u, pos, e, pos, p);
    ConcatLocal(s, u, pos);
    if Look(s, p) == Some('|') {
      AgreeNarrow(s, u, pos, e, p + 1, e);
      ReLocal(s, u, p + 1);
    }
  }

  lemma {:induction false} ConcatLocal(s: string, u: string, pos: nat)
    requires ParseConcat(s, pos).Success?
    requires Agree(s, u, pos, ParseConcat(s, pos).value.1)
    ensures ParseConcat(u, pos) == ParseConcat(s, pos)
    decreases Remaining(s, pos), 2
  {
    var e := ParseConcat(s, pos).value.1;
    var p := ParseStar(s, pos).value.1;
    AgreeNarrow(s, u, pos, e, pos, p);
    StarLocal(s, u, pos);
    if !StopsConcat(s, p) {
      AgreeNarrow(s, u, pos, e, p, e);
      ConcatLocal(s, u, p);
    }
  }

  lemma {:induction false} StarLocal(s: string, u: string, pos: nat)
    requires ParseStar(s, pos).Success?
    requires Agree(s, u, pos, ParseStar(s, pos).value.1)
    ensures ParseStar(u, pos) == ParseStar(s, pos)
    decreases Remaining(s, pos), 1
  {
    var e := ParseStar(s, pos).value.1;
    var p := ParseAtomic(s, pos).value.1;
    AgreeNarrow(s, u, pos, e, pos, p);
    AtomicLocal(s, u, pos);
  }

  lemma {:induction false} AtomicLocal(s: string, u: string, pos: nat)
    requires ParseAtomic(s, pos).Success?
    requires Agree(s, u, pos, ParseAtomic(s, pos).value.1)
    ensures ParseAtomic(u, pos) == ParseAtomic(s, pos)
    decreases Remaining(s, pos), 0
  {
    var e := ParseAtomic(s, pos).value.1;
    assert s[pos] == s[pos..e][0] && u[pos] == u[pos..e][0];
    if s[pos] == '(' {
      var p := ParseRe(s, pos + 1).value.1;
      AgreeNarrow(s, u, pos, e, pos + 1, p);
      ReLocal(s, u, pos + 1);
      assert s[p] == s[pos..e][p - pos] && u[p] == u[pos..e][p - pos];
    }
  }

  /** Nothing checks that the top-level parse reached the end of the pattern:
      when it stops early, at a `*` or a `)`, whatever follows that character
      is never read, and any pattern that agrees with `s` up to and including
      it has the same tree. */
  lemma TrailingInputIgnored(s: string, u: string)
    requires ParseRe(s, 0).Success? && ParseRe(s, 0).value.1 < |s|
    requires ParseRe(s, 0).value.1 < |u| && u[..ParseRe(s, 0).value.1 + 1] == s[..ParseRe(s, 0).value.1 + 1]
    ensures s[ParseRe(s, 0).value.1] == '*' || s[ParseRe(s, 0).value.1] == ')'
    ensures Parse(u) == Parse(s)
  {
    var e := ParseRe(s, 0).value.1;
    assert StopsRe(s, e);
    PrefixAgrees(s, u, e);
    ReLocal(s, u, 0);
  }

  /** Two patterns with the same characters up to and including position
      `e` agree on `[0, e)` and on the lookahead at `e`. */
  lemma PrefixAgrees(s: string, u: string, e: nat)
    requires e < |s| && e < |u| && u[..e + 1] == s[..e + 1]
    ensures Agree(s, u, 0, e)
  {
    assert s[0..e] == s[..e + 1][..e];
    assert u[0..e] == u[..e + 1][..e];
    assert s[e] == s[..e + 1][e];
    assert u[e] == u[..e + 1][e];
  }

  lemma StrayCloseParenIgnored()
    ensures Parse("a)b(") == Success(Symbol('a'))
    ensures Parse("a**") == Success(Star(Symbol('a')))
  {
    assert ParseAtomic("a)b(", 0) == Success((Symbol('a'), 1));
    assert ParseStar("a)b(", 0) == Success((Symbol('a'), 1));
    assert ParseConcat("a)b(", 0) == Success((Symbol('a'), 1));
    assert ParseAtomic("a**", 0) == Success((Symbol('a'), 1));
    assert ParseStar("a**", 0) == Success((Star(Symbol('a')), 2));
    assert ParseConcat("a**", 0) == Success((Star(Symbol('a')), 2));
  }

  /** `|` is loosest and groups to the right, `*` binds tightest. */
  lemma PrecedenceExamples()
    ensures Parse("ab|c") == Success(Or(Concat(Symbol('a'), Symbol('b')), Symbol('c')))
    ensures Parse("a|b|c") == Success(Or(Symbol('a'), Or(Symbol('b'), Symbol('c'))))
    ensures Parse("ab*") == Success(Concat(Symbol('a'), Star(Symbol('b'))))
  {
    assert ParseConcat("ab|c", 1) == Success((Symbol('b'), 2));
    assert ParseConcat("ab|c", 0) == Success((Concat(Symbol('a'), Symbol('b')), 2));
    assert ParseRe("ab|c", 3) == Success((Symbol('c'), 4));
    assert ParseRe("a|b|c", 4) == Success((Symbol('c'), 5));
    assert ParseRe("a|b|c", 2) == Success((Or(Symbol('b'), Symbol('c')), 5));
    assert ParseConcat("a|b|c", 0) == Success((Symbol('a'), 1));
    assert ParseStar("ab*", 1) == Success((Star(Symbol('b')), 3));
    assert ParseConcat("ab*", 1) == Success((Star(Symbol('b')), 3));
    assert ParseConcat("ab*", 0) == Success((Concat(Symbol('a'), Star(Symbol('b'))), 3));
  }

  /** Where an atom is expected, a reserved character is read as a literal. */
  lemma ReservedAsLiteral()
    ensures Parse("*a") == Success(Concat(Symbol('*'), Symbol('a')))
    ensures Parse("a||b") == Success(Or(Symbol('a'), Concat(Symbol('|'), Symbol('b'))))
    ensures Parse("())") == Success(Symbol(')'))
    ensures Parse("()") == Failure(UnexpectedEnd(2))
  {
    assert ParseConcat("*a", 1) == Success((Symbol('a'), 2));
    assert ParseConcat("*a", 0) == Success((Concat(Symbol('*'), Symbol('a')), 2));
    assert ParseConcat("a||b", 3) == Success((Symbol('b'), 4));
    assert ParseConcat("a||b", 2) == Success((Concat(Symbol('|'), Symbol('b')), 4));
    assert ParseRe("a||b", 2) == Success((Concat(Symbol('|'), Symbol('b')), 4));
    assert ParseConcat("a||b", 0) == Success((Symbol('a'), 1));
    assert ParseRe("())", 1) == Success((Symbol(')'), 2));
    assert ParseRe("()", 1) == Success((Symbol(')'), 2));
  }

  /** A `(` in atom position: the inner alternation's error aborts the
      parse; a group the input ends inside fails with an unexpected end; a
      group closed by `)` is the inner tree; any other character where the
      `)` belongs fails, reported one past that character. */
  lemma GroupOutcome(u: string, pos: nat)
    requires Look(u, pos) == Some('(')
    ensures ParseRe(u, pos + 1).Failure? ==> ParseAtomic(u, pos) == Failure(ParseRe(u, pos + 1).error)
    ensures ParseRe(u, pos + 1).Success? && ParseRe(u, pos + 1).value.1 == |u| ==>
              ParseAtomic(u, pos) == Failure(UnexpectedEnd(|u|))
    ensures ParseRe(u, pos + 1).Success? && Look(u, ParseRe(u, pos + 1).value.1) == Some(')') ==>
              ParseAtomic(u, pos) == Success((ParseRe(u, pos + 1).value.0, ParseRe(u, pos + 1).value.1 + 1))
    ensures ParseRe(u, pos + 1).Success? && ParseRe(u, pos + 1).value.1 < |u| && u[ParseRe(u, pos + 1).value.1] != ')' ==>
              && u[ParseRe(u, pos + 1).value.1] == '*'
              && ParseAtomic(u, pos) == Failure(ExpectedCloseParen(ParseRe(u, pos + 1).value.1 + 1))
  {
  }

  /** An error aborts the whole parse: each parse function passes a failure
      of the one it calls upward unchanged, and no partial tree survives. */
  lemma FailureAborts(s: string, pos: nat)
    ensures ParseAtomic(s, pos).Failure? ==> ParseStar(s, pos) == Failure(ParseAtomic(s, pos).error)
    ensures ParseStar(s, pos).Failure? ==> ParseConcat(s, pos) == Failure(ParseStar(s, pos).error)
    ensures ParseStar(s, pos).Success? && !StopsConcat(s, ParseStar(s, pos).value.1) &&
            ParseConcat(s, ParseStar(s, pos).value.1).Failure? ==>
              ParseConcat(s, pos) == Failure(ParseConcat(s, ParseStar(s, pos).value.1).error)
    ensures ParseConcat(s, pos).Failure? ==> ParseRe(s, pos) == Failure(ParseConcat(s, pos).error)
    ensures ParseConcat(s, pos).Success? && Look(s, ParseConcat(s, pos).value.1) == Some('|') &&
            ParseRe(s, ParseConcat(s, pos).value.1 + 1).Failure? ==>
              ParseRe(s, pos) == Failure(ParseRe(s, ParseConcat(s, pos).value.1 + 1).error)
    ensures pos == 0 && ParseRe(s, 0).Failure? ==> Parse(s) == Failure(ParseRe(s, 0).error)
  {
  }

  /** A `|` that ends the pattern leaves its right operand missing: the
      alternation fails with an unexpected end. */
  lemma TrailingBar(s: string, pos: nat)
    requires ParseConcat(s, pos).Success? && ParseConcat(s, pos).value.1 + 1 == |s| && s[|s| - 1] == '|'
    ensures ParseRe(s, pos) == Failure(UnexpectedEnd(|s|))
  {
    assert ParseAtomic(s, |s|) == Failure(UnexpectedEnd(|s|));
    assert ParseRe(s, |s|) == Failure(UnexpectedEnd(|s|));
  }

  /** A `(` that ends the pattern opens a group with no body: the
      concatenation it would continue fails with an unexpected end. */
  lemma TrailingOpen(s: string, pos: nat)
    requires ParseStar(s, pos).Success? && ParseStar(s, pos).value.1 + 1 == |s| && s[|s| - 1] == '('
    ensures ParseConcat(s, pos) == Failure(UnexpectedEnd(|s|))
  {
    var p := |s| - 1;
    assert !StopsConcat(s, p);
    assert ParseAtomic(s, |s|) == Failure(UnexpectedEnd(|s|));
    assert ParseRe(s, |s|) == Failure(UnexpectedEnd(|s|));
    assert ParseAtomic(s, p) == Failure(UnexpectedEnd(|s|));
    assert ParseConcat(s, p) == Failure(UnexpectedEnd(|s|));
  }

  /** The two errors: input ending where an atom or a `)` is expected, and a
      group whose body stops at a `*` that is not a `)`. */
  lemma ErrorExamples()
    ensures Parse("a|") == Failure(UnexpectedEnd(2))
    ensures Parse("(a") == Failure(UnexpectedEnd(2))
    ensures Parse("(a**)") == Failure(ExpectedCloseParen(4))
    ensures Parse("a(") == Failure(UnexpectedEnd(2))
  {
    TrailingOpen("a(", 0);
    assert ParseConcat("a|", 0) == Success((Symbol('a'), 1));
    assert ParseRe("(a", 1) == Success((Symbol('a'), 2));
    assert ParseStar("(a**)", 1) == Success((Star(Symbol('a')), 3));
    assert ParseConcat("(a**)", 1) == Success((Star(Symbol('a')), 3));
    assert ParseRe("(a**)", 1) == Success((Star(Symbol('a')), 3));
  }
}
