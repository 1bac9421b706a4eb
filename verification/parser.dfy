/** The recursive-descent parser of `rep.py`. The global cursor and pattern
    string of `rep.py` become explicit arguments: every parse function
    takes the pattern and the cursor and returns the tree together with the
    cursor after it, or the error that aborts the whole parse. */
module Parser {
  import opened Wrappers
  import opened Syntax

  /** `parser_error`: `rep.py` prints a message and exits. The index of
      `ExpectedCloseParen` is the cursor as `rep.py` reports it (one past
      the offending character); `UnexpectedEnd` carries the pattern length. */
  datatype ParseError = UnexpectedEnd(index: nat) | ExpectedCloseParen(index: nat)

  /** `lookahead`: the character under the cursor, `None` past the end. */
  function Look(s: string, pos: nat): Option<char> {
    if pos < |s| then Some(s[pos]) else None
  }

  /** Termination measure: the characters left to read. */
  function Remaining(s: string, pos: nat): nat {
    if pos <= |s| then |s| - pos else 0
  }

  /** A concatenation ends at the end of input or before a reserved character. */
  predicate StopsConcat(s: string, e: nat) {
    Look(s, e).None? || Look(s, e).value in Reserved
  }

  /** An alternation ends at the end of input, before `*` or before `)`. */
  predicate StopsRe(s: string, e: nat) {
    Look(s, e) == None || Look(s, e) == Some('*') || Look(s, e) == Some(')')
  }

  /** Where each error can arise: running out of input is reported only at
      the end of the pattern, and a missing `)` only ever faces a `*`. */
  predicate ReportedAt(s: string, e: ParseError) {
    match e
    case UnexpectedEnd(i) => i == |s|
    case ExpectedCloseParen(i) => 0 < i <= |s| && s[i - 1] == '*'
  }

  /** `regex := concat ('|' regex)?` */
  function ParseRe(s: string, pos: nat): (r: Result<(Re, nat), ParseError>)
    decreases Remaining(s, pos), 3
    ensures r.Success? ==> pos < r.value.1 <= |s|
    ensures r.Success? ==> StopsRe(s, r.value.1)
    ensures r.Success? ==> StateCount(r.value.0) <= 2 * (r.value.1 - pos)
    ensures r.Failure? ==> ReportedAt(s, r.error)
  {
    var (left, p) :- ParseConcat(s, pos);
    if Look(s, p) == Some('|') then
      var (right, q) :- ParseRe(s, p + 1);
      Success((Or(left, right), q))
    else
      Success((left, p))
  }

  /** `concat := star (concat)?`, stopping at the end or a reserved character. */
  function ParseConcat(s: string, pos: nat): (r: Result<(Re, nat), ParseError>)
    decreases Remaining(s, pos), 2
    ensures r.Success? ==> pos < r.value.1 <= |s|
    ensures r.Success? ==> StopsConcat(s, r.value.1)
    ensures r.Success? ==> StateCount(r.value.0) <= 2 * (r.value.1 - pos)
    ensures r.Failure? ==> ReportedAt(s, r.error)
  {
    var (first, p) :- ParseStar(s, pos);
    if StopsConcat(s, p) then
      Success((first, p))
    else
      var (rest, q) :- ParseConcat(s, p);
      Success((Concat(first, rest), q))
  }

  /** `star := atomic ('*')?`: at most one `*` is taken per atom, so a `*`
      left under the cursor can only follow a starred atom. */
  function ParseStar(s: string, pos: nat): (r: Result<(Re, nat), ParseError>)
    decreases Remaining(s, pos), 1
    ensures r.Success? ==> pos < r.value.1 <= |s|
    ensures r.Success? && Look(s, r.value.1) == Some('*') ==> r.value.0.Star?
    ensures r.Success? ==> ParseAtomic(s, pos).Success? && r.value.1 <= ParseAtomic(s, pos).value.1 + 1
    ensures r.Success? && r.value.1 == ParseAtomic(s, pos).value.1 + 1 ==> r.value.0 == Star(ParseAtomic(s, pos).value.0)
    ensures r.Success? ==> ParseAtomic(s, pos).value.1 <= r.value.1
    ensures r.Success? && r.value.1 == ParseAtomic(s, pos).value.1 ==> r.value.0 == ParseAtomic(s, pos).value.0
    ensures ParseAtomic(s, pos).Failure? ==> r == Failure(ParseAtomic(s, pos).error)
    ensures r.Success? ==> StateCount(r.value.0) <= 2 * (r.value.1 - pos)
    ensures r.Failure? ==> ReportedAt(s, r.error)
  {
    var (atom, p) :- ParseAtomic(s, pos);
    if Look(s, p) == Some('*') then
      Success((Star(atom), p + 1))
    else
      Success((atom, p))
  }

  /** `atomic := '(' regex ')' | <any other character>`. Any character other
      than `(` is a literal here, the reserved ones included. */
  function ParseAtomic(s: string, pos: nat): (r: Result<(Re, nat), ParseError>)
    decreases Remaining(s, pos), 0
    ensures r.Success? ==> pos < r.value.1 <= |s|
    ensures r.Success? ==> StateCount(r.value.0) <= 2 * (r.value.1 - pos)
    ensures r.Failure? ==> ReportedAt(s, r.error)
    ensures pos >= |s| ==> r == Failure(UnexpectedEnd(|s|))
    ensures pos < |s| && s[pos] != '(' ==> r == Success((Symbol(s[pos]), pos + 1))
  {
    if pos >= |s| then
      Failure(UnexpectedEnd(|s|))
    else if s[pos] == '(' then
      var (inner, p) :- ParseRe(s, pos + 1);
      if p >= |s| then
        Failure(UnexpectedEnd(|s|))
      else if s[p] == ')' then
        Success((inner, p + 1))
      else
        Failure(ExpectedCloseParen(p + 1))
    else
      Success((Symbol(s[pos]), pos + 1))
  }

  /** The top-level parse (`re = parse_re()`): the cursor it stops at is
      dropped, so input after it is never looked at. */
  function Parse(s: string): (r: Result<Re, ParseError>)
    ensures r.Success? ==> StateCount(r.value) <= 2 * |s|
    ensures r.Failure? ==> ReportedAt(s, r.error)
    ensures s == [] ==> r == Failure(UnexpectedEnd(0))
  {
    var (tree, _) :- ParseRe(s, 0);
    Success(tree)
  }
}
