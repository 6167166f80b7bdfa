/** The fragment of Python's `re` that the heading patterns of the syllabus
    reader use: case-insensitive literals, one-character bracket classes,
    and `\s*`, `\s+`, `\d+` runs, combined in sequence and alternation and
    found with `re.search`.

    Two meanings are given to a pattern: `Spans`, the set of all ways it can
    match a slice (what a backtracking engine explores), and `MatchSeq`,
    which takes every run greedily and never backtracks. For a well-formed
    pattern, where each run is followed by a literal whose first character
    cannot continue the run, the two coincide (`MatchSeqComplete`): a slice
    matched by the pattern has exactly one end, whichever order the engine
    explores. `Search` then finds the leftmost position and the first
    alternative that matches there, as Python's `re.search` does
    (`SearchIsLeftmostFirst`). */
module Pattern {
  import opened Base
  import opened Text

  /** Character classes that can be repeated. */
  datatype Class = Space | Digit

  predicate InClass(k: Class, c: char) {
    match k
    case Space => IsSpace(c)
    case Digit => IsDigit(c)
  }

  lemma ClassFoldFixed(k: Class, c: char)
    requires InClass(k, c)
    ensures Fold(c) == c
  {
  }

  /** One element of a pattern compiled with `re.IGNORECASE`. */
  datatype Tok =
    | Word(w: string)                  // literal text, compared under case folding
    | OneOf(alts: string)              // a bracket class such as `[ÁA]`
    | Run(k: Class, atLeastOne: bool)  // `\s*` (false), `\s+` or `\d+` (true)

  type Pat = seq<Tok>

  /** The literal `w` matches `s` at `i`, ignoring case. */
  predicate WordAt(w: string, s: string, i: nat) {
    i + |w| <= |s| && forall m :: 0 <= m < |w| ==> Fold(s[i + m]) == Fold(w[m])
  }

  /** The bracket class `alts` matches the character at `i`, ignoring case. */
  predicate OneOfAt(alts: string, s: string, i: nat) {
    i < |s| && exists m :: 0 <= m < |alts| && Fold(s[i]) == Fold(alts[m])
  }

  /** Every character of `s[i..j]` is in class `k`. */
  predicate RunSpan(k: Class, s: string, i: nat, j: nat) {
    i <= j <= |s| && forall m :: i <= m < j ==> InClass(k, s[m])
  }

  /** The token `t` can match exactly `s[i..j]`. */
  predicate TokSpans(t: Tok, s: string, i: nat, j: nat) {
    match t
    case Word(w) => j == i + |w| && WordAt(w, s, i)
    case OneOf(a) => j == i + 1 && OneOfAt(a, s, i)
    case Run(k, one) => RunSpan(k, s, i, j) && (one ==> i < j)
  }

  /** The pattern `p` can match exactly `s[i..j]`: some split of the slice
      lets every token match its piece. */
  ghost predicate Spans(p: Pat, s: string, i: nat, j: nat)
    decreases |p|
  {
    if p == [] then i == j <= |s|
    else exists k: nat :: i <= k <= j && TokSpans(p[0], s, i, k) && Spans(p[1..], s, k, j)
  }

  /** Each run is followed by a non-empty literal whose first character,
      folded, is outside the run's class, so a run can only stop where the
      greedy reading stops it. */
  predicate WellFormed(p: Pat) {
    forall n :: 0 <= n < |p| && p[n].Run? ==>
      && n + 1 < |p|
      && p[n + 1].Word?
      && |p[n + 1].w| > 0
      && !InClass(p[n].k, Fold(p[n + 1].w[0]))
  }

  /** Well-formed patterns joined after a token that is not a run stay
      well formed. */
  lemma WellFormedAppend(p: Pat, q: Pat)
    requires WellFormed(p) && WellFormed(q)
    requires p != [] ==> !p[|p| - 1].Run?
    ensures WellFormed(p + q)
  {
    forall n | 0 <= n < |p + q| && (p + q)[n].Run?
      ensures n + 1 < |p + q| && (p + q)[n + 1].Word? && |(p + q)[n + 1].w| > 0
              && !InClass((p + q)[n].k, Fold((p + q)[n + 1].w[0]))
    {
      if n < |p| {
        assert (p + q)[n] == p[n] && (p + q)[n + 1] == p[n + 1];
      } else {
        assert (p + q)[n] == q[n - |p|] && (p + q)[n + 1] == q[n - |p| + 1];
      }
    }
  }

  /** Where the longest run of class `k` starting at `i` ends. */
  function RunEnd(k: Class, s: string, i: nat): (e: nat)
    requires i <= |s|
    ensures i <= e
    ensures RunSpan(k, s, i, e)
    ensures e < |s| ==> !InClass(k, s[e])
    decreases |s| - i
  {
    if i < |s| && InClass(k, s[i]) then RunEnd(k, s, i + 1) else i
  }

  /** Greedy matching of one token at `i`. */
  function MatchTok(t: Tok, s: string, i: nat): (r: Option<nat>)
    requires i <= |s|
    ensures r.Some? ==> i <= r.value <= |s| && TokSpans(t, s, i, r.value)
  {
    match t
    case Word(w) => if WordAt(w, s, i) then Some(i + |w|) else None
    case OneOf(a) => if OneOfAt(a, s, i) then Some(i + 1) else None
    case Run(k, one) =>
      var e := RunEnd(k, s, i);
      if one && e == i then None else Some(e)
  }

  /** Greedy matching of a token sequence at `i`: the end of the match. */
  function MatchSeq(p: Pat, s: string, i: nat): (r: Option<nat>)
    requires i <= |s|
    ensures r.Some? ==> i <= r.value <= |s|
    decreases |p|
  {
    if p == [] then Some(i)
    else
      match MatchTok(p[0], s, i)
      case None => None
      case Some(k) => MatchSeq(p[1..], s, k)
  }

  /** What the greedy matcher finds is a genuine match. */
  lemma {:induction false} MatchSeqSound(p: Pat, s: string, i: nat)
    requires i <= |s|
    requires MatchSeq(p, s, i).Some?
    ensures Spans(p, s, i, MatchSeq(p, s, i).value)
    decreases |p|
  {
    if p != [] {
      var k := MatchTok(p[0], s, i).value;
      MatchSeqSound(p[1..], s, k);
      assert TokSpans(p[0], s, i, k);
    }
  }

  /** `WellFormed` checked token by token from the front; on a fixed
      pattern this unfolds once per token. */
  predicate ShapeChecked(p: Pat)
    decreases |p|
  {
    p == [] ||
    ((p[0].Run? ==> |p| >= 2 && p[1].Word? && |p[1].w| > 0 && !InClass(p[0].k, Fold(p[1].w[0])))
     && ShapeChecked(p[1..]))
  }

  /** The token-by-token check establishes `WellFormed`. */
  lemma {:induction false} ShapeCheckedWellFormed(p: Pat)
    requires ShapeChecked(p)
    ensures WellFormed(p)
    decreases |p|
  {
    if p != [] {
      ShapeCheckedWellFormed(p[1..]);
      forall n | 0 <= n < |p| && p[n].Run?
        ensures n + 1 < |p| && p[n + 1].Word? && |p[n + 1].w| > 0
                && !InClass(p[n].k, Fold(p[n + 1].w[0]))
      {
        if n > 0 {
          assert p[n] == p[1..][n - 1] && p[1..][n] == p[n + 1];
        }
      }
    }
  }

  /** Dropping the first token keeps a pattern well formed. */
  lemma WellFormedTail(p: Pat)
    requires WellFormed(p) && p != []
    ensures WellFormed(p[1..])
  {
    forall n | 0 <= n < |p[1..]| && p[1..][n].Run?
      ensures n + 1 < |p[1..]| && p[1..][n + 1].Word? && |p[1..][n + 1].w| > 0
              && !InClass(p[1..][n].k, Fold(p[1..][n + 1].w[0]))
    {
      assert p[1..][n] == p[n + 1];
    }
  }

  /** In a well-formed pattern, a leading run can only end where the
      greedy reading ends it: the literal after it cannot start inside
      the run. */
  lemma RunStopsWhereGreedyStops(p: Pat, s: string, i: nat, k: nat, j: nat)
    requires WellFormed(p) && p != [] && p[0].Run?
    requires TokSpans(p[0], s, i, k) && Spans(p[1..], s, k, j)
    ensures k == RunEnd(p[0].k, s, i)
  {
    var e := RunEnd(p[0].k, s, i);
    if k < e {
      assert InClass(p[0].k, s[k]);
      var w := p[1].w;
      assert p[1..][0] == p[1];
      var k2: nat :| k <= k2 <= j && TokSpans(p[1..][0], s, k, k2) && Spans(p[1..][1..], s, k2, j);
      assert Fold(s[k + 0]) == Fold(w[0]);
      ClassFoldFixed(p[0].k, s[k]);
      assert false;
    }
  }

  /** For a well-formed pattern the greedy matcher finds every match, so a
      match starting at `i` has exactly one end. */
  lemma {:induction false} MatchSeqComplete(p: Pat, s: string, i: nat, j: nat)
    requires WellFormed(p)
    requires Spans(p, s, i, j)
    ensures i <= |s|
    ensures MatchSeq(p, s, i) == Some(j)
    decreases |p|
  {
    if p != [] {
      var k: nat :| i <= k <= j && TokSpans(p[0], s, i, k) && Spans(p[1..], s, k, j);
      WellFormedTail(p);
      MatchSeqComplete(p[1..], s, k, j);
      if p[0].Run? {
        RunStopsWhereGreedyStops(p, s, i, k, j);
      }
      assert MatchTok(p[0], s, i) == Some(k);
    }
  }

  /** A prefix of a pattern matches wherever the whole pattern does. */
  lemma {:induction false} MatchSeqPrefix(p: Pat, q: Pat, s: string, i: nat)
    requires i <= |s|
    requires MatchSeq(p + q, s, i).Some?
    ensures MatchSeq(p, s, i).Some?
    decreases |p|
  {
    if p != [] {
      assert (p + q)[0] == p[0];
      assert (p + q)[1..] == p[1..] + q;
      MatchSeqPrefix(p[1..], q, s, MatchTok(p[0], s, i).value);
    }
  }

  /** Alternation: the end of the first alternative, in the order written,
      that matches at `i`. */
  function FirstAlt(alts: seq<Pat>, s: string, i: nat): (r: Option<nat>)
    requires i <= |s|
    ensures r.Some? ==> i <= r.value <= |s|
    decreases |alts|
  {
    if alts == [] then None
    else
      match MatchSeq(alts[0], s, i)
      case Some(j) => Some(j)
      case None => FirstAlt(alts[1..], s, i)
  }

  /** A match of one alternative. */
  datatype Span = Span(start: nat, end: nat)

  /** `re.search`: try every start position from `from` on, left to right,
      and report the first one where an alternative matches. */
  function Search(alts: seq<Pat>, s: string, from: nat): (r: Option<Span>)
    requires from <= |s|
    ensures r.Some? ==> from <= r.value.start <= r.value.end <= |s|
    ensures r.Some? ==> FirstAlt(alts, s, r.value.start) == Some(r.value.end)
    ensures r.Some? ==> forall q :: from <= q < r.value.start ==> FirstAlt(alts, s, q).None?
    ensures r.None? ==> forall q :: from <= q <= |s| ==> FirstAlt(alts, s, q).None?
    decreases |s| - from
  {
    match FirstAlt(alts, s, from)
    case Some(j) => Some(Span(from, j))
    case None => if from == |s| then None else Search(alts, s, from + 1)
  }

  /** Two alternations that agree at every position are searched alike. */
  lemma {:induction false} SearchSameAlts(a: seq<Pat>, b: seq<Pat>, s: string, from: nat)
    requires from <= |s|
    requires forall q :: from <= q <= |s| ==> FirstAlt(a, s, q) == FirstAlt(b, s, q)
    ensures Search(a, s, from) == Search(b, s, from)
    decreases |s| - from
  {
    if FirstAlt(a, s, from).None? && from < |s| {
      SearchSameAlts(a, b, s, from + 1);
    }
  }

  /** Every alternative is well formed. */
  predicate AllWellFormed(alts: seq<Pat>) {
    forall n :: 0 <= n < |alts| ==> WellFormed(alts[n])
  }

  /** Alternative `n` matches `s[i..j]` and no earlier alternative matches
      at `i` at all: the match a backtracking engine reports at `i`. */
  ghost predicate FirstSpans(alts: seq<Pat>, s: string, i: nat, j: nat) {
    exists n :: 0 <= n < |alts| && Spans(alts[n], s, i, j)
                && forall m, j' :: 0 <= m < n ==> !Spans(alts[m], s, i, j')
  }

  /** Some alternative matches at `i`. */
  ghost predicate SomeAltAt(alts: seq<Pat>, s: string, i: nat) {
    exists n, j :: 0 <= n < |alts| && Spans(alts[n], s, i, j)
  }

  lemma AllWellFormedTail(alts: seq<Pat>)
    requires AllWellFormed(alts) && alts != []
    ensures AllWellFormed(alts[1..])
  {
    forall n | 0 <= n < |alts[1..]| ensures WellFormed(alts[1..][n]) {
      assert alts[1..][n] == alts[n + 1];
    }
  }

  /** No alternative of a well-formed list matches where the greedy
      matcher finds nothing. */
  lemma NoSpansWhereGreedyFails(p: Pat, s: string, i: nat)
    requires i <= |s| && WellFormed(p) && MatchSeq(p, s, i).None?
    ensures forall j :: !Spans(p, s, i, j)
  {
    forall j | Spans(p, s, i, j) ensures false {
      MatchSeqComplete(p, s, i, j);
    }
  }

  /** When the first alternative matches, its end is the only one a
      backtracking engine reports. */
  lemma FirstAltHeadMatches(alts: seq<Pat>, s: string, i: nat)
    requires i <= |s| && alts != [] && AllWellFormed(alts)
    requires MatchSeq(alts[0], s, i).Some?
    ensures SomeAltAt(alts, s, i)
    ensures forall j: nat :: FirstSpans(alts, s, i, j) <==> j == MatchSeq(alts[0], s, i).value
  {
    var j0 := MatchSeq(alts[0], s, i).value;
    MatchSeqSound(alts[0], s, i);
    forall j: nat | FirstSpans(alts, s, i, j) ensures j == j0 {
      var n :| 0 <= n < |alts| && Spans(alts[n], s, i, j)
               && forall m, j' :: 0 <= m < n ==> !Spans(alts[m], s, i, j');
      MatchSeqComplete(alts[0], s, i, j);
    }
    assert FirstSpans(alts, s, i, j0) by {
      assert Spans(alts[0], s, i, j0);
    }
  }

  /** When the first alternative cannot match, some alternative matches
      exactly when one of the others does. */
  lemma HeadFailsSomeAlt(alts: seq<Pat>, s: string, i: nat)
    requires alts != [] && forall j :: !Spans(alts[0], s, i, j)
    ensures SomeAltAt(alts, s, i) <==> SomeAltAt(alts[1..], s, i)
  {
    var tail := alts[1..];
    if SomeAltAt(alts, s, i) {
      var n, j :| 0 <= n < |alts| && Spans(alts[n], s, i, j);
      assert n > 0;
      assert Spans(tail[n - 1], s, i, j);
    }
    if SomeAltAt(tail, s, i) {
      var n, j :| 0 <= n < |tail| && Spans(tail[n], s, i, j);
      assert Spans(alts[n + 1], s, i, j);
    }
  }

  /** When the first alternative cannot match, the reported match is the
      one the other alternatives report. */
  lemma HeadFailsFirstSpans(alts: seq<Pat>, s: string, i: nat, j: nat)
    requires alts != [] && forall j' :: !Spans(alts[0], s, i, j')
    ensures FirstSpans(alts, s, i, j) <==> FirstSpans(alts[1..], s, i, j)
  {
    var tail := alts[1..];
    if FirstSpans(alts, s, i, j) {
      var n :| 0 <= n < |alts| && Spans(alts[n], s, i, j)
               && forall m, j' :: 0 <= m < n ==> !Spans(alts[m], s, i, j');
      assert n > 0;
      assert Spans(tail[n - 1], s, i, j);
      forall m, j' | 0 <= m < n - 1 ensures !Spans(tail[m], s, i, j') {
        assert tail[m] == alts[m + 1];
      }
    }
    if FirstSpans(tail, s, i, j) {
      var n :| 0 <= n < |tail| && Spans(tail[n], s, i, j)
               && forall m, j' :: 0 <= m < n ==> !Spans(tail[m], s, i, j');
      assert Spans(alts[n + 1], s, i, j);
      forall m, j' | 0 <= m < n + 1 ensures !Spans(alts[m], s, i, j') {
        if m > 0 {
          assert alts[m] == tail[m - 1];
        }
      }
    }
  }

  /** The alternation finds a match at `i` exactly when some alternative
      can match there, and then the end a backtracking engine reports. */
  lemma {:induction false} FirstAltCorrect(alts: seq<Pat>, s: string, i: nat)
    requires i <= |s|
    requires AllWellFormed(alts)
    ensures FirstAlt(alts, s, i).None? <==> !SomeAltAt(alts, s, i)
    ensures forall j: nat :: FirstAlt(alts, s, i) == Some(j) <==> FirstSpans(alts, s, i, j)
    decreases |alts|
  {
    if alts != [] {
      AllWellFormedTail(alts);
      FirstAltCorrect(alts[1..], s, i);
      if MatchSeq(alts[0], s, i).Some? {
        FirstAltHeadMatches(alts, s, i);
      } else {
        NoSpansWhereGreedyFails(alts[0], s, i);
        HeadFailsSomeAlt(alts, s, i);
        forall j: nat ensures FirstSpans(alts, s, i, j) <==> FirstSpans(alts[1..], s, i, j) {
          HeadFailsFirstSpans(alts, s, i, j);
        }
      }
    }
  }

  /** What `Search` reports is the leftmost match. */
  lemma SearchReportsLeftmost(alts: seq<Pat>, s: string, a: nat, b: nat)
    requires AllWellFormed(alts)
    requires Search(alts, s, 0) == Some(Span(a, b))
    ensures FirstSpans(alts, s, a, b) && forall q :: 0 <= q < a ==> !SomeAltAt(alts, s, q)
  {
    FirstAltCorrect(alts, s, a);
    forall q | 0 <= q < a ensures !SomeAltAt(alts, s, q) {
      FirstAltCorrect(alts, s, q);
    }
  }

  /** The leftmost match is what `Search` reports. */
  lemma LeftmostIsReported(alts: seq<Pat>, s: string, a: nat, b: nat)
    requires AllWellFormed(alts)
    requires FirstSpans(alts, s, a, b) && forall q :: 0 <= q < a ==> !SomeAltAt(alts, s, q)
    ensures Search(alts, s, 0) == Some(Span(a, b))
  {
    var n :| 0 <= n < |alts| && Spans(alts[n], s, a, b)
             && forall m, j' :: 0 <= m < n ==> !Spans(alts[m], s, a, j');
    MatchSeqComplete(alts[n], s, a, b);
    assert SomeAltAt(alts, s, a);
    FirstAltCorrect(alts, s, a);
    forall q | 0 <= q < a ensures FirstAlt(alts, s, q).None? {
      FirstAltCorrect(alts, s, q);
    }
  }

  /** `Search` reports the leftmost position at which any alternative
      matches, with the end of the first alternative that matches there;
      it reports nothing exactly when no alternative matches anywhere. */
  lemma SearchIsLeftmostFirst(alts: seq<Pat>, s: string)
    requires AllWellFormed(alts)
    ensures forall a: nat, b: nat :: Search(alts, s, 0) == Some(Span(a, b)) <==>
              (FirstSpans(alts, s, a, b) && forall q :: 0 <= q < a ==> !SomeAltAt(alts, s, q))
    ensures Search(alts, s, 0).None? <==> forall q :: 0 <= q <= |s| ==> !SomeAltAt(alts, s, q)
  {
    forall a: nat, b: nat
      ensures Search(alts, s, 0) == Some(Span(a, b)) <==>
              (FirstSpans(alts, s, a, b) && forall q :: 0 <= q < a ==> !SomeAltAt(alts, s, q))
    {
      if Search(alts, s, 0) == Some(Span(a, b)) {
        SearchReportsLeftmost(alts, s, a, b);
      }
      if FirstSpans(alts, s, a, b) && forall q :: 0 <= q < a ==> !SomeAltAt(alts, s, q) {
        LeftmostIsReported(alts, s, a, b);
      }
    }
    if Search(alts, s, 0).None? {
      forall q | 0 <= q <= |s| ensures !SomeAltAt(alts, s, q) {
        FirstAltCorrect(alts, s, q);
      }
    } else {
      var m := Search(alts, s, 0).value;
      FirstAltCorrect(alts, s, m.start);
    }
  }

  /** The leftmost-position half of `SearchIsLeftmostFirst`, as a
      statement about the reported start only. */
  lemma SearchFindsLeftmost(alts: seq<Pat>, s: string)
    requires AllWellFormed(alts)
    requires Search(alts, s, 0).Some?
    ensures SomeAltAt(alts, s, Search(alts, s, 0).value.start)
    ensures forall q :: 0 <= q < Search(alts, s, 0).value.start ==> !SomeAltAt(alts, s, q)
  {
    SearchIsLeftmostFirst(alts, s);
    var m := Search(alts, s, 0).value;
    assert FirstSpans(alts, s, m.start, m.end);
  }

  /** An alternative that can only match where an earlier one already
      matches never decides the result, and can be left out. */
  lemma {:induction false} FirstAltDropLast(alts: seq<Pat>, p: Pat, s: string, i: nat)
    requires i <= |s|
    requires MatchSeq(p, s, i).Some? ==> FirstAlt(alts, s, i).Some?
    ensures FirstAlt(alts + [p], s, i) == FirstAlt(alts, s, i)
    decreases |alts|
  {
    if alts == [] {
      assert FirstAlt([p], s, i) == MatchSeq(p, s, i) by {
        assert [p][1..] == [];
      }
    } else {
      assert (alts + [p])[0] == alts[0];
      assert (alts + [p])[1..] == alts[1..] + [p];
      if MatchSeq(alts[0], s, i).None? {
        FirstAltDropLast(alts[1..], p, s, i);
      }
    }
  }

  /** A run of class `k` from `i` that stops before a character outside
      the class is the longest run. */
  lemma RunEndAt(k: Class, s: string, i: nat, j: nat)
    requires RunSpan(k, s, i, j)
    requires j < |s| ==> !InClass(k, s[j])
    ensures RunEnd(k, s, i) == j
  {
  }
}
