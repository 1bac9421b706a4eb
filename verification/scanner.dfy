/** The per-line search loop of the command-line driver: the line is tiled
    from left to right with longest matches, stepping one character where
    nothing non-empty matches. */
module Scanner {
  import opened Wrappers
  import opened Syntax
  import opened Parser
  import opened Automaton
  import opened ThompsonLaws
  import opened Matcher

  /** One entry of `matches`: the half-open character range `[lo, hi)`. */
  datatype Span = Span(lo: nat, hi: nat)

  /** Every span is non-empty and inside `[0, len]`, and each one ends no
      later than the next one starts. */
  predicate Tiled(spans: seq<Span>, len: nat) {
    && (forall i :: 0 <= i < |spans| ==> spans[i].lo < spans[i].hi <= len)
    && (forall i, j :: 0 <= i < j < |spans| ==> spans[i].hi <= spans[j].lo)
  }

  /** The test the driver uses to colour character `p`: some span covers it. */
  predicate Covered(spans: seq<Span>, p: nat) {
    exists i :: 0 <= i < |spans| && spans[i].lo <= p < spans[i].hi
  }

  /** The matcher reports no non-empty match at `p`. */
  ghost predicate NothingAt(n: Nfa, line: string, p: nat)
    requires WellFormed(n.states) && p <= |line|
  {
    Longest(n, line[p..]).None? || Longest(n, line[p..]) == Some(0)
  }

  /** Appending a span keeps what was covered and covers the new range. */
  lemma CoveredAppend(spans: seq<Span>, s: Span)
    ensures forall p: nat :: Covered(spans, p) ==> Covered(spans + [s], p)
    ensures forall p :: s.lo <= p < s.hi ==> Covered(spans + [s], p)
  {
    forall p: nat | Covered(spans, p)
      ensures Covered(spans + [s], p)
    {
      var i :| 0 <= i < |spans| && spans[i].lo <= p < spans[i].hi;
      assert (spans + [s])[i] == spans[i];
    }
    forall p | s.lo <= p < s.hi
      ensures Covered(spans + [s], p)
    {
      assert (spans + [s])[|spans|] == s;
    }
  }

  /** `re_matcher(line[index:], nfa)`. */
  method MatchAt(n: Nfa, line: string, index: nat) returns (m: Option<nat>)
    requires WellFormed(n.states) && index <= |line|
    ensures m == Longest(n, line[index..])
    ensures m.Some? ==> index + m.value <= |line|
  {
    m := ReMatcher(line[index..], n);
  }

  /** Every recorded span is, on the automaton, the longest match starting
      where it starts. */
  ghost predicate Recorded(n: Nfa, line: string, spans: seq<Span>)
    requires WellFormed(n.states)
  {
    forall i :: 0 <= i < |spans| ==>
      spans[i].lo <= spans[i].hi <= |line| && Longest(n, line[spans[i].lo..]) == Some(spans[i].hi - spans[i].lo)
  }

  /** A span that starts at or after the end of every earlier span keeps
      the spans tiled. */
  lemma TiledAppend(spans: seq<Span>, s: Span, index: nat, len: nat)
    requires Tiled(spans, index) && index == s.lo < s.hi <= len
    ensures Tiled(spans + [s], s.hi)
  {
  }

  /** Recording the longest match at `s.lo` keeps the spans recorded. */
  lemma RecordedAppend(n: Nfa, line: string, spans: seq<Span>, s: Span)
    requires WellFormed(n.states) && Recorded(n, line, spans)
    requires s.lo <= s.hi <= |line| && Longest(n, line[s.lo..]) == Some(s.hi - s.lo)
    ensures Recorded(n, line, spans + [s])
  {
    var t := spans + [s];
    forall i | 0 <= i < |t|
      ensures t[i].lo <= t[i].hi <= |line| && Longest(n, line[t[i].lo..]) == Some(t[i].hi - t[i].lo)
    {
      if i < |spans| {
        assert t[i] == spans[i];
      }
    }
  }

  /** The loop of the driver over one line: `re_matcher` at `index`; no
      match or an empty one moves on by one character, a match of length
      `m` is recorded and skipped. */
  method Scan(n: Nfa, line: string) returns (spans: seq<Span>)
    requires WellFormed(n.states)
    ensures Tiled(spans, |line|)
    ensures Recorded(n, line, spans)
    ensures forall p :: 0 <= p < |line| && !Covered(spans, p) ==> NothingAt(n, line, p)
  {
    spans := [];
    var index := 0;
    while index < |line|
      invariant index <= |line|
      invariant Tiled(spans, index)
      invariant Recorded(n, line, spans)
      invariant forall p :: 0 <= p < index && !Covered(spans, p) ==> NothingAt(n, line, p)
      decreases |line| - index
    {
      var m := MatchAt(n, line, index);
      if m == None || m == Some(0) {
        index := index + 1;
      } else {
        var s := Span(index, index + m.value);
        CoveredAppend(spans, s);
        TiledAppend(spans, s, index, |line|);
        RecordedAppend(n, line, spans, s);
        spans := spans + [s];
        index := index + m.value;
      }
    }
  }

  /** `hi` ends the longest match of `r` starting at `lo`. */
  ghost predicate LongestMatchAt(r: Re, line: string, lo: nat, hi: nat) {
    && lo < hi <= |line|
    && Matches(r, line[lo..hi])
    && (forall j :: hi < j <= |line| ==> !Matches(r, line[lo..j]))
  }

  /** No non-empty piece of the line starting at `p` matches `r`. */
  ghost predicate NoMatchAt(r: Re, line: string, p: nat) {
    forall j :: p < j <= |line| ==> !Matches(r, line[p..j])
  }

  /** What the matcher reports on the compiled automaton, in terms of the
      language of the tree: `None` when no prefix matches, otherwise the
      length of the longest matching prefix. */
  lemma LongestMatch(r: Re, t: string)
    ensures Longest(ToNfa(r), t).None? <==> forall k :: 0 <= k <= |t| ==> !Matches(r, t[..k])
    ensures Longest(ToNfa(r), t).Some? ==>
              && Longest(ToNfa(r), t).value <= |t|
              && Matches(r, t[..Longest(ToNfa(r), t).value])
              && forall k :: Longest(ToNfa(r), t).value < k <= |t| ==> !Matches(r, t[..k])
  {
    var n := ToNfa(r);
    forall k | 0 <= k <= |t|
      ensures Accepts(n, t[..k]) <==> Matches(r, t[..k])
    {
      AcceptsIffMatches(r, t[..k]);
    }
    LongestUpToNone(n, t, |t|);
    if Longest(n, t).Some? {
      LongestUpToSome(n, t, |t|);
    }
  }

  /** A prefix of a suffix of the line is a piece of the line. */
  lemma SliceOfSuffix(line: string, lo: nat, j: nat)
    requires lo <= j <= |line|
    ensures line[lo..][..j - lo] == line[lo..j]
  {
  }

  /** A span the loop records is the longest match starting where it starts. */
  lemma SpanMeaning(r: Re, line: string, lo: nat, hi: nat)
    requires lo < hi <= |line| && Longest(ToNfa(r), line[lo..]) == Some(hi - lo)
    ensures LongestMatchAt(r, line, lo, hi)
  {
    var t := line[lo..];
    LongestMatch(r, t);
    SliceOfSuffix(line, lo, hi);
    forall j | hi < j <= |line|
      ensures !Matches(r, line[lo..j])
    {
      assert !Matches(r, t[..j - lo]);
      SliceOfSuffix(line, lo, j);
    }
  }

  /** A position the loop steps over starts no non-empty match. */
  lemma GapMeaning(r: Re, line: string, p: nat)
    requires p <= |line| && NothingAt(ToNfa(r), line, p)
    ensures NoMatchAt(r, line, p)
  {
    var t := line[p..];
    LongestMatch(r, t);
    forall j | p < j <= |line|
      ensures !Matches(r, line[p..j])
    {
      assert !Matches(r, t[..j - p]);
      SliceOfSuffix(line, p, j);
    }
  }

  /** One line of the command-line driver: parse the pattern (a parse error
      ends the program before any line is read), compile it and tile the
      line. Every span is the longest match of the pattern starting where
      it starts, and every character outside the spans starts no non-empty
      match. */
  method Search(pattern: string, line: string) returns (result: Result<seq<Span>, ParseError>)
    ensures result.Success? <==> Parse(pattern).Success?
    ensures Parse(pattern).Failure? ==> result == Failure(Parse(pattern).error)
    ensures result.Success? ==> Parse(pattern).Success? && Tiled(result.value, |line|)
    ensures result.Success? ==> forall i :: 0 <= i < |result.value| ==>
              LongestMatchAt(Parse(pattern).value, line, result.value[i].lo, result.value[i].hi)
    ensures result.Success? ==> forall p :: 0 <= p < |line| && !Covered(result.value, p) ==>
              NoMatchAt(Parse(pattern).value, line, p)
  {
    var parsed := Parse(pattern);
    if parsed.Failure? {
      return Failure(parsed.error);
    }
    var r := parsed.value;
    var spans := Scan(ToNfa(r), line);
    forall i | 0 <= i < |spans|
      ensures LongestMatchAt(r, line, spans[i].lo, spans[i].hi)
    {
      SpanMeaning(r, line, spans[i].lo, spans[i].hi);
    }
    forall p | 0 <= p < |line| && !Covered(spans, p)
      ensures NoMatchAt(r, line, p)
    {
      GapMeaning(r, line, p);
    }
    result := Success(spans);
  }
}
