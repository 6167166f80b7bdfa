/** Python string primitives the application relies on: `str.lower()`,
    `str.isspace()` (also the `\s` class of `re`), `str.isdigit()`/`\d`,
    `str.strip()`, the `in` substring test, `str.endswith` and
    digit filtering. Strings are sequences of Unicode code points. */
module Text {

  /** One character of `str.lower()`: ASCII capitals and the Latin-1
      capitals U+00C0..U+00DE (which include Á É Í Ó Ú Ü Ñ, but not the
      multiplication sign U+00D7) become their small letters; every other
      character is left as it is. */
  function Fold(c: char): (d: char)
    ensures 'A' <= c <= 'Z' ==> d as int == c as int + 32
    ensures !('A' <= c <= 'Z') && !('\U{00C0}' <= c <= '\U{00DE}') ==> d == c
  {
    if 'A' <= c <= 'Z' then (c as int + 32) as char
    else if '\U{00C0}' <= c <= '\U{00DE}' && c != '\U{00D7}' then (c as int + 32) as char
    else c
  }

  /** Folding twice is folding once. */
  lemma FoldIdempotent(c: char)
    ensures Fold(Fold(c)) == Fold(c)
  {
  }

  /** `str.lower()` on a whole string. */
  function Lower(s: string): (r: string)
    ensures |r| == |s|
    ensures forall i :: 0 <= i < |s| ==> r[i] == Fold(s[i])
  {
    seq(|s|, i requires 0 <= i < |s| => Fold(s[i]))
  }

  lemma LowerAppend(a: string, b: string)
    ensures Lower(a + b) == Lower(a) + Lower(b)
  {
    assert forall i :: 0 <= i < |a + b| ==> Lower(a + b)[i] == (Lower(a) + Lower(b))[i];
  }

  /** `str.isspace()`, which is also what `\s` matches in a `str` pattern. */
  predicate IsSpace(c: char) {
    || ('\t' <= c <= '\r')
    || ('\U{001C}' <= c <= ' ')
    || c == '\U{0085}' || c == '\U{00A0}' || c == '\U{1680}'
    || ('\U{2000}' <= c <= '\U{200A}')
    || c == '\U{2028}' || c == '\U{2029}' || c == '\U{202F}' || c == '\U{205F}'
    || c == '\U{3000}'
  }

  /** Whitespace is untouched by case folding. */
  lemma SpaceFoldFixed(c: char)
    requires IsSpace(c)
    ensures Fold(c) == c
  {
  }

  /** The ASCII decimal digits. */
  predicate IsDigit(c: char) {
    '0' <= c <= '9'
  }

  /** A string made of whitespace only (also the empty string). */
  predicate AllSpace(s: string) {
    forall i :: 0 <= i < |s| ==> IsSpace(s[i])
  }

  /** The length of the whitespace run that starts `s`. */
  function LeadingSpaces(s: string): (n: nat)
    ensures n <= |s|
    ensures AllSpace(s[..n])
    ensures n < |s| ==> !IsSpace(s[n])
  {
    if s == [] || !IsSpace(s[0]) then 0
    else
      var n := 1 + LeadingSpaces(s[1..]);
      assert s[..n] == [s[0]] + s[1..][..n - 1];
      n
  }

  /** The length of the whitespace run that ends `s`. */
  function TrailingSpaces(s: string): (n: nat)
    ensures n <= |s|
    ensures AllSpace(s[|s| - n..])
    ensures n < |s| ==> !IsSpace(s[|s| - n - 1])
  {
    if s == [] || !IsSpace(s[|s| - 1]) then 0
    else
      var p := s[..|s| - 1];
      var k := TrailingSpaces(p);
      var tail := s[|s| - (k + 1)..];
      assert AllSpace(tail) by {
        forall i | 0 <= i < |tail| ensures IsSpace(tail[i]) {
          if i < k {
            assert tail[i] == p[|p| - k..][i];
          }
        }
      }
      assert k + 1 < |s| ==> s[|s| - (k + 1) - 1] == p[|p| - k - 1];
      k + 1
  }

  /** `r` is the slice of `s` at `a` with only whitespace around it. */
  predicate SpaceFramed(s: string, r: string, a: nat) {
    && a + |r| <= |s|
    && r == s[a..a + |r|]
    && AllSpace(s[..a])
    && AllSpace(s[a + |r|..])
  }

  /** Where `str.strip()` cuts: the slice of `s` from `a` of length `n`,
      past the leading whitespace and before the trailing whitespace. */
  function StripStart(s: string): (a: nat)
    ensures a <= |s|
  {
    LeadingSpaces(s)
  }

  function StripLength(s: string): (n: nat)
    ensures StripStart(s) + n <= |s|
  {
    |s| - StripStart(s) - TrailingSpaces(s[StripStart(s)..])
  }

  lemma StripCutFramed(s: string)
    ensures SpaceFramed(s, s[StripStart(s)..StripStart(s) + StripLength(s)], StripStart(s))
  {
    var a := StripStart(s);
    var t := s[a..];
    var n := StripLength(s);
    assert s[a + n..] == t[n..];
  }

  lemma StripCutEnds(s: string)
    ensures var r := s[StripStart(s)..StripStart(s) + StripLength(s)];
            && (r == [] <==> AllSpace(s))
            && (r != [] ==> !IsSpace(r[0]) && !IsSpace(r[|r| - 1]))
  {
    var a := StripStart(s);
    var t := s[a..];
    var n := StripLength(s);
    if a < |s| {
      assert !IsSpace(t[0]);
      assert !AllSpace(s);
    } else {
      assert s[..a] == s;
    }
  }

  /** `str.strip()`: the longest slice of `s` that neither starts nor ends
      with whitespace, obtained by cutting whitespace-only ends. */
  function Strip(s: string): (r: string)
    ensures |r| <= |s|
    ensures r == [] <==> AllSpace(s)
    ensures r != [] ==> !IsSpace(r[0]) && !IsSpace(r[|r| - 1])
    ensures exists a :: SpaceFramed(s, r, a)
  {
    StripCutFramed(s);
    StripCutEnds(s);
    s[StripStart(s)..StripStart(s) + StripLength(s)]
  }

  /** A slice framed by whitespace that itself neither starts nor ends
      with whitespace is what `str.strip()` keeps. */
  lemma StripUnique(s: string, r: string, a: nat)
    requires SpaceFramed(s, r, a)
    requires r != [] && !IsSpace(r[0]) && !IsSpace(r[|r| - 1])
    ensures Strip(s) == r
  {
    var r' := Strip(s);
    assert s[a] == r[0];
    assert !AllSpace(s);
    var a' :| SpaceFramed(s, r', a');
    FramedStartsAgree(s, r, a, r', a');
    FramedStartsAgree(s, r', a', r, a);
    FramedEndsAgree(s, r, a, r', a');
    FramedEndsAgree(s, r', a', r, a);
  }

  /** Two whitespace framings of non-blank slices that start without
      whitespace start at the same place, and end at the same place when
      they end without whitespace. */
  lemma FramedStartsAgree(s: string, r: string, a: nat, r': string, a': nat)
    requires SpaceFramed(s, r, a) && SpaceFramed(s, r', a')
    requires r != [] && !IsSpace(r[0])
    ensures a' <= a
  {
    assert s[a] == r[0];
  }

  lemma FramedEndsAgree(s: string, r: string, a: nat, r': string, a': nat)
    requires SpaceFramed(s, r, a) && SpaceFramed(s, r', a')
    requires r != [] && !IsSpace(r[|r| - 1])
    ensures a + |r| <= a' + |r'|
  {
    assert s[a + |r| - 1] == r[|r| - 1];
  }

  /** Whitespace around a string does not change what `str.strip()`
      keeps of it. */
  lemma StripIgnoresPadding(s: string, p: string, q: string)
    requires AllSpace(p) && AllSpace(q)
    ensures Strip(p + s + q) == Strip(s)
  {
    var t := p + s + q;
    if AllSpace(s) {
      assert AllSpace(t) by {
        forall i | 0 <= i < |t| ensures IsSpace(t[i]) {
          if i < |p| {
            assert t[i] == p[i];
          } else if i < |p| + |s| {
            assert t[i] == s[i - |p|];
          } else {
            assert t[i] == q[i - |p| - |s|];
          }
        }
      }
    } else {
      var r := Strip(s);
      var a :| SpaceFramed(s, r, a);
      PaddedFrame(s, p, q, r, a);
      StripUnique(t, r, |p| + a);
    }
  }

  /** Appending text never shortens what `str.strip()` keeps: the
      stripped text of `s` still lies inside the stripped text of
      `s + t`. */
  lemma StripGrowsWithAppend(s: string, t: string)
    ensures |Strip(s)| <= |Strip(s + t)|
  {
    if !AllSpace(s) {
      StripOfExtension(s, s + t);
    }
  }

  lemma StripOfExtension(s: string, u: string)
    requires !AllSpace(s) && s <= u
    ensures |Strip(s)| <= |Strip(u)|
  {
    var r := Strip(s);
    var a := StripStart(s);
    StripCutFramed(s);
    StripCutEnds(s);
    StripCutFramed(u);
    assert u[a..a + |r|] == s[a..a + |r|];
    FramingCoversCore(u, r, a, Strip(u), StripStart(u));
  }

  /** A whitespace framing covers every slice that starts and ends with
      non-whitespace. */
  lemma FramingCoversCore(u: string, r: string, a: nat, r': string, a': nat)
    requires a + |r| <= |u| && r == u[a..a + |r|]
    requires r != [] && !IsSpace(r[0]) && !IsSpace(r[|r| - 1])
    requires SpaceFramed(u, r', a')
    ensures a' <= a && a + |r| <= a' + |r'|
  {
    assert u[a] == r[0];
    assert u[a + |r| - 1] == r[|r| - 1];
  }

  lemma PaddedFrame(s: string, p: string, q: string, r: string, a: nat)
    requires AllSpace(p) && AllSpace(q) && SpaceFramed(s, r, a)
    ensures SpaceFramed(p + s + q, r, |p| + a)
  {
    var t := p + s + q;
    assert t[|p| + a..|p| + a + |r|] == s[a..a + |r|];
    var pre := t[..|p| + a];
    forall i | 0 <= i < |pre| ensures IsSpace(pre[i]) {
      if i < |p| {
        assert pre[i] == p[i];
      } else {
        assert pre[i] == s[..a][i - |p|];
      }
    }
    var e := |p| + a + |r|;
    var post := t[e..];
    forall k | 0 <= k < |post| ensures IsSpace(post[k]) {
      if e + k < |p| + |s| {
        assert post[k] == s[a + |r|..][k];
      } else {
        assert post[k] == q[e + k - |p| - |s|];
      }
    }
  }

  /** `needle` occurs in `hay` starting at index `i`. */
  predicate ContainsAt(hay: string, needle: string, i: nat) {
    i + |needle| <= |hay| && hay[i..i + |needle|] == needle
  }

  /** `needle` occurs in `hay` at `from` or later. */
  predicate ContainsFrom(hay: string, needle: string, from: nat)
    ensures ContainsFrom(hay, needle, from) <==>
            exists i :: from <= i && ContainsAt(hay, needle, i)
    decreases |hay| - from
  {
    if from + |needle| > |hay| then false
    else ContainsAt(hay, needle, from) || ContainsFrom(hay, needle, from + 1)
  }

  /** Python's `needle in hay`. */
  predicate Contains(hay: string, needle: string) {
    ContainsFrom(hay, needle, 0)
  }

  /** An occurrence in a string is an occurrence in any extension of it. */
  lemma ContainsExtend(a: string, b: string, needle: string)
    requires Contains(a, needle)
    ensures Contains(a + b, needle) && Contains(b + a, needle)
  {
    var i :| 0 <= i && ContainsAt(a, needle, i);
    assert (a + b)[i..i + |needle|] == a[i..i + |needle|];
    assert (b + a)[|b| + i..|b| + i + |needle|] == a[i..i + |needle|];
    assert ContainsAt(a + b, needle, i);
    assert ContainsAt(b + a, needle, |b| + i);
  }

  /** Python's `s.endswith(suffix)`. */
  predicate EndsWith(s: string, suffix: string) {
    |suffix| <= |s| && s[|s| - |suffix|..] == suffix
  }

  /** The first `n` characters of `s` (Python's `s[:n]`). */
  function Take(s: string, n: nat): (r: string)
    ensures |r| <= n
    ensures r == s[..if |s| < n then |s| else n]
  {
    if |s| < n then s else s[..n]
  }

  /** `''.join(filter(str.isdigit, s))`: the digits of `s`, in order. */
  function DigitsOf(s: string): (r: string)
    ensures |r| <= |s|
    ensures forall i :: 0 <= i < |r| ==> IsDigit(r[i])
  {
    if s == [] then []
    else (if IsDigit(s[0]) then [s[0]] else []) + DigitsOf(s[1..])
  }

  /** Filtering digits distributes over concatenation. */
  lemma {:induction false} DigitsOfAppend(a: string, b: string)
    ensures DigitsOf(a + b) == DigitsOf(a) + DigitsOf(b)
  {
    if a != [] {
      assert (a + b)[1..] == a[1..] + b;
      DigitsOfAppend(a[1..], b);
    } else {
      assert a + b == b;
    }
  }

  /** A string of digits only is its own digit filter, so the filter is
      idempotent. */
  lemma {:induction false} DigitsOfDigits(s: string)
    requires forall i :: 0 <= i < |s| ==> IsDigit(s[i])
    ensures DigitsOf(s) == s
  {
    if s != [] {
      DigitsOfDigits(s[1..]);
    }
  }
}
