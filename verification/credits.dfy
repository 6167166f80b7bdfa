/** Reading the number of credits off the raw syllabus text with the
    pattern `(?i)crédito.*?\s*[:\.]?\s*(\d)`: the word "crédito" in any
    case, then lazily any characters of the same line, optional
    whitespace, an optional colon or full stop, optional whitespace, and
    one captured digit. */
module Credits {
  import opened Base
  import opened Text
  import opened Pattern

  /** The literal that opens the pattern, matched ignoring case. */
  const CreditWord: string := "crédito"

  predicate IsSeparator(c: char) {
    c == ':' || c == '.'
  }

  /** `\s*[:\.]?\s*(\d)` tried at `p` the way a backtracking engine tries
      it: the index of the captured digit. The first `\s*` takes all the
      whitespace; then either a digit follows, or a colon or full stop,
      more whitespace and a digit. Giving back whitespace never helps,
      because a digit is never whitespace. */
  function TailCapture(s: string, p: nat): (r: Option<nat>)
    requires p <= |s|
    ensures r.Some? ==> p <= r.value < |s| && IsDigit(s[r.value])
  {
    var a := RunEnd(Space, s, p);
    if a < |s| && IsDigit(s[a]) then Some(a)
    else if a < |s| && IsSeparator(s[a]) then
      var c := RunEnd(Space, s, a + 1);
      if c < |s| && IsDigit(s[c]) then Some(c) else None
    else None
  }

  /** Some reading of `\s*[:\.]?\s*(\d)` matches from `p` and captures the
      digit at `c`. */
  ghost predicate TailSpans(s: string, p: nat, c: nat) {
    exists a: nat, b: nat ::
      && p <= a <= b <= c < |s|
      && RunSpan(Space, s, p, a)
      && (b == a || (b == a + 1 && IsSeparator(s[a])))
      && RunSpan(Space, s, b, c)
      && IsDigit(s[c])
  }

  /** The digit `TailCapture` finds has a reading of the tail. */
  lemma TailCaptureSound(s: string, p: nat)
    requires p <= |s| && TailCapture(s, p).Some?
    ensures TailSpans(s, p, TailCapture(s, p).value)
  {
    var a := RunEnd(Space, s, p);
    var c := TailCapture(s, p).value;
    if c == a {
      assert RunSpan(Space, s, c, c);
    } else {
      assert RunSpan(Space, s, a + 1, c);
    }
  }

  /** Every reading of the tail is the one `TailCapture` finds. */
  lemma TailSpansFound(s: string, p: nat, c: nat)
    requires p <= |s| && TailSpans(s, p, c)
    ensures TailCapture(s, p) == Some(c)
  {
    var a, b :| && p <= a <= b <= c < |s|
                && RunSpan(Space, s, p, a)
                && (b == a || (b == a + 1 && IsSeparator(s[a])))
                && RunSpan(Space, s, b, c)
                && IsDigit(s[c]);
    if b == a {
      assert RunSpan(Space, s, p, c);
      RunEndAt(Space, s, p, c);
    } else {
      RunEndAt(Space, s, p, a);
      RunEndAt(Space, s, a + 1, c);
    }
  }

  /** The tail has at most one reading from a given position, and
      `TailCapture` finds it. */
  lemma TailCaptureExact(s: string, p: nat, c: nat)
    requires p <= |s|
    ensures TailCapture(s, p) == Some(c) <==> TailSpans(s, p, c)
  {
    if TailCapture(s, p) == Some(c) {
      TailCaptureSound(s, p);
    }
    if TailSpans(s, p, c) {
      TailSpansFound(s, p, c);
    }
  }

  /** How far `.*?` can reach from `e`: up to the first line feed, which
      `.` does not match, or the end of the text. */
  function LineEnd(s: string, e: nat): (n: nat)
    requires e <= |s|
    ensures e <= n <= |s|
    ensures n < |s| ==> s[n] == '\n'
    ensures forall k :: e <= k < n ==> s[k] != '\n'
    decreases |s| - e
  {
    if e == |s| || s[e] == '\n' then e else LineEnd(s, e + 1)
  }

  /** `.*?` followed by the tail: the lazy star stops at `p`, `p + 1`, …
      up to `n`, and the first stop from which the tail matches wins. */
  function LazyCapture(s: string, p: nat, n: nat): (r: Option<nat>)
    requires p <= n <= |s|
    ensures r.Some? ==> p <= r.value < |s| && IsDigit(s[r.value])
    ensures r.Some? ==> exists q :: p <= q <= n && TailCapture(s, q) == r
    ensures r.None? <==> forall q :: p <= q <= n ==> TailCapture(s, q).None?
    decreases n - p
  {
    match TailCapture(s, p)
    case Some(c) => Some(c)
    case None => if p == n then None else LazyCapture(s, p + 1, n)
  }

  /** Only whitespace and one separator lie between the start of the tail
      and its digit. */
  lemma TailCaptureNoEarlierDigit(s: string, p: nat)
    requires p <= |s|
    requires TailCapture(s, p).Some?
    ensures forall d :: p <= d < TailCapture(s, p).value ==> !IsDigit(s[d])
  {
    var a := RunEnd(Space, s, p);
    if a < |s| && IsSeparator(s[a]) && !IsDigit(s[a]) {
      var c := RunEnd(Space, s, a + 1);
      assert forall d :: a + 1 <= d < c ==> IsSpace(s[d]);
    }
  }

  /** The tail never fails right on a digit. */
  lemma TailFailsOffDigit(s: string, p: nat)
    requires p < |s|
    requires TailCapture(s, p).None?
    ensures !IsDigit(s[p])
  {
    assert RunSpan(Space, s, p, RunEnd(Space, s, p));
  }

  /** What the lazy star captures is the first digit from `p` on: every
      digit before it would have been reached by an earlier stop. */
  lemma {:induction false} LazyCaptureFirstDigit(s: string, p: nat, n: nat)
    requires p <= n <= |s|
    requires LazyCapture(s, p, n).Some?
    ensures forall d :: p <= d < LazyCapture(s, p, n).value ==> !IsDigit(s[d])
    decreases n - p
  {
    if TailCapture(s, p).Some? {
      TailCaptureNoEarlierDigit(s, p);
    } else {
      LazyCaptureFirstDigit(s, p + 1, n);
      TailFailsOffDigit(s, p);
    }
  }

  /** A digit that the lazy star can reach is always found. */
  lemma ReachableDigitCaptured(s: string, p: nat, n: nat, d: nat)
    requires p <= d <= n <= |s| && d < |s| && IsDigit(s[d])
    ensures LazyCapture(s, p, n).Some?
  {
    RunEndAt(Space, s, d, d);
    assert TailCapture(s, d) == Some(d);
  }

  /** Where the whole pattern, started at `i`, captures its digit. */
  function CaptureAt(s: string, i: nat): (r: Option<nat>)
    requires i <= |s|
    ensures r.Some? ==> i + |CreditWord| <= r.value < |s| && IsDigit(s[r.value])
  {
    if WordAt(CreditWord, s, i) then
      LazyCapture(s, i + |CreditWord|, LineEnd(s, i + |CreditWord|))
    else None
  }

  /** Some reading of the whole pattern starts at `i` and captures the
      digit at `c`. */
  ghost predicate CreditReading(s: string, i: nat, c: nat) {
    && WordAt(CreditWord, s, i)
    && exists q :: i + |CreditWord| <= q <= LineEnd(s, i + |CreditWord|) && TailSpans(s, q, c)
  }

  /** A digit captured after the lazy star has a reading of the tail from
      one of the stops. */
  lemma LazyCaptureReading(s: string, e: nat, n: nat, c: nat)
    requires e <= n <= |s|
    requires LazyCapture(s, e, n) == Some(c)
    ensures exists q :: e <= q <= n && TailSpans(s, q, c)
  {
    var q :| e <= q <= n && TailCapture(s, q) == Some(c);
    TailCaptureExact(s, q, c);
  }

  /** When the lazy star finds nothing, the tail has no reading from any
      stop. */
  lemma LazyCaptureNoReading(s: string, e: nat, n: nat, c: nat)
    requires e <= n <= |s|
    requires LazyCapture(s, e, n).None?
    ensures forall q :: e <= q <= n ==> !TailSpans(s, q, c)
  {
    forall q | e <= q <= n ensures !TailSpans(s, q, c) {
      TailCaptureExact(s, q, c);
    }
  }

  /** The pattern can be read from `i` exactly when `CaptureAt` finds a
      digit there, and that digit is the first one after the word. */
  lemma CaptureAtCorrect(s: string, i: nat)
    requires i <= |s|
    ensures CaptureAt(s, i).None? <==> forall c :: !CreditReading(s, i, c)
    ensures CaptureAt(s, i).Some? ==>
              && CreditReading(s, i, CaptureAt(s, i).value)
              && forall d :: i + |CreditWord| <= d < CaptureAt(s, i).value ==> !IsDigit(s[d])
  {
    if WordAt(CreditWord, s, i) {
      var e := i + |CreditWord|;
      var n := LineEnd(s, e);
      var r := LazyCapture(s, e, n);
      assert CaptureAt(s, i) == r;
      if r.Some? {
        LazyCaptureReading(s, e, n, r.value);
        LazyCaptureFirstDigit(s, e, n);
        assert CreditReading(s, i, r.value);
      } else {
        forall c ensures !CreditReading(s, i, c) {
          LazyCaptureNoReading(s, e, n, c);
        }
      }
    }
  }

  /** A match of the pattern: where it starts and where its digit is. */
  datatype Hit = Hit(start: nat, digit: nat)

  /** `re.search`: the leftmost start from `from` on at which the pattern
      can be read, with its captured digit. */
  function CreditMatch(s: string, from: nat): (r: Option<Hit>)
    requires from <= |s|
    ensures r.Some? ==> from <= r.value.start <= |s| && CaptureAt(s, r.value.start) == Some(r.value.digit)
    decreases |s| - from
  {
    match CaptureAt(s, from)
    case Some(c) => Some(Hit(from, c))
    case None => if from == |s| then None else CreditMatch(s, from + 1)
  }

  /** The reported match is the leftmost: the pattern captures nothing at
      any earlier start, and nothing anywhere when no match is reported. */
  lemma {:induction false} CreditMatchLeftmost(s: string, from: nat)
    requires from <= |s|
    ensures CreditMatch(s, from).Some? ==>
              forall i :: from <= i < CreditMatch(s, from).value.start ==> CaptureAt(s, i).None?
    ensures CreditMatch(s, from).None? ==> forall i :: from <= i <= |s| ==> CaptureAt(s, i).None?
    decreases |s| - from
  {
    var here := CaptureAt(s, from);
    if here.None? && from < |s| {
      var r := CreditMatch(s, from + 1);
      assert CreditMatch(s, from) == r;
      CreditMatchLeftmost(s, from + 1);
      var b := if r.Some? then r.value.start else |s| + 1;
      forall i | from <= i < b ensures CaptureAt(s, i).None? {
        if i == from {
          assert CaptureAt(s, i) == here;
        }
      }
    }
  }

  /** `int()` of one ASCII digit. */
  function DigitValue(c: char): (v: nat)
    requires IsDigit(c)
    ensures v <= 9
    ensures (v as char) == (c as int - '0' as int) as char
  {
    c as int - '0' as int
  }

  /** The credits read from a syllabus: the captured digit of the leftmost
      match, or 0 when the pattern does not match. Only one digit is ever
      captured. */
  function ExtractCredits(raw: string): (r: nat)
    ensures r <= 9
  {
    match CreditMatch(raw, 0)
    case Some(m) => DigitValue(raw[m.digit])
    case None => 0
  }

  /** The pattern can be read nowhere exactly when no match is reported,
      and then the credits are 0. */
  lemma ExtractCreditsNoMatch(raw: string)
    ensures CreditMatch(raw, 0).None? <==> forall i, c :: 0 <= i <= |raw| ==> !CreditReading(raw, i, c)
    ensures CreditMatch(raw, 0).None? ==> ExtractCredits(raw) == 0
  {
    CreditMatchLeftmost(raw, 0);
    if CreditMatch(raw, 0).Some? {
      var h := CreditMatch(raw, 0).value;
      CaptureAtCorrect(raw, h.start);
      assert CreditReading(raw, h.start, h.digit);
    } else {
      forall i, c | 0 <= i <= |raw| ensures !CreditReading(raw, i, c) {
        CaptureAtCorrect(raw, i);
      }
    }
  }

  /** Otherwise the credits come from the leftmost "crédito" after which
      the pattern can be read, and are the first digit following it. */
  lemma ExtractCreditsLeftmost(raw: string)
    requires CreditMatch(raw, 0).Some?
    ensures CreditReading(raw, CreditMatch(raw, 0).value.start, CreditMatch(raw, 0).value.digit)
    ensures forall i, c :: 0 <= i < CreditMatch(raw, 0).value.start ==> !CreditReading(raw, i, c)
    ensures var h := CreditMatch(raw, 0).value;
            forall d :: h.start + |CreditWord| <= d < h.digit ==> !IsDigit(raw[d])
    ensures ExtractCredits(raw) == DigitValue(raw[CreditMatch(raw, 0).value.digit])
  {
    var h := CreditMatch(raw, 0).value;
    CreditMatchLeftmost(raw, 0);
    CaptureAtCorrect(raw, h.start);
    forall i, c | 0 <= i < h.start ensures !CreditReading(raw, i, c) {
      CaptureAtCorrect(raw, i);
    }
  }

  /** When a digit follows "crédito" on the same line, the pattern matches
      there at the latest. */
  lemma DigitOnSameLineMatches(raw: string, i: nat, d: nat)
    requires WordAt(CreditWord, raw, i)
    requires i + |CreditWord| <= d < LineEnd(raw, i + |CreditWord|) && IsDigit(raw[d])
    ensures CreditMatch(raw, 0).Some? && CreditMatch(raw, 0).value.start <= i
  {
    ReachableDigitCaptured(raw, i + |CreditWord|, LineEnd(raw, i + |CreditWord|), d);
    assert CaptureAt(raw, i).Some?;
    CreditMatchLeftmost(raw, 0);
  }

  /** After "Créditos: " only the first digit of the count is read: a
      count of two or more digits yields its leading digit, whatever
      follows. */
  lemma TwoDigitCountReadAsOne(a: char, rest: string)
    requires IsDigit(a)
    ensures ExtractCredits("Créditos: " + [a] + rest) == DigitValue(a)
  {
    var s := "Créditos: " + [a] + rest;
    assert s[..10] == "Créditos: ";
    LabelledCountCaptured(s);
    assert s[10] == a;
  }

  /** A text that opens with "Créditos: " and a digit captures that digit
      from its first character. */
  lemma LabelledCountCaptured(s: string)
    requires |s| > 10 && s[..10] == "Créditos: " && IsDigit(s[10])
    ensures CaptureAt(s, 0) == Some(10)
  {
    LabelWord(s);
    LabelTail(s);
    var n := LineEnd(s, 7);
    assert LazyCapture(s, 8, n) == Some(10);
    assert LazyCapture(s, 7, n) == Some(10);
  }

  lemma LabelWord(s: string)
    requires |s| >= 10 && s[..10] == "Créditos: "
    ensures WordAt(CreditWord, s, 0)
  {
    assert forall m :: 0 <= m < 10 ==> s[m] == s[..10][m];
  }

  lemma LabelTail(s: string)
    requires |s| > 10 && s[..10] == "Créditos: " && IsDigit(s[10])
    ensures LineEnd(s, 7) >= 10
    ensures TailCapture(s, 7).None? && TailCapture(s, 8) == Some(10)
  {
    assert s[7] == 's' && s[8] == ':' && s[9] == ' ' by {
      assert forall m :: 0 <= m < 10 ==> s[m] == s[..10][m];
    }
    assert LineEnd(s, 7) == LineEnd(s, 8) == LineEnd(s, 9) == LineEnd(s, 10);
    assert RunEnd(Space, s, 7) == 7;
    assert RunEnd(Space, s, 8) == 8;
    assert RunEnd(Space, s, 10) == 10;
    assert RunEnd(Space, s, 9) == 10;
  }


}
