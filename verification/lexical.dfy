/** The lexical side of course comparison: cleaning a text before
    tokenisation, keeping the content lemmas of the tokens
    (`limpiar_texto_para_tokens`), and the Jaccard similarity of two lemma
    sets (`calcular_jaccard`). The language model that splits and
    lemmatises the text is not part of this model: it is the parameter
    `analyse`. */
module Lexical {
  import opened Base
  import opened Text

  /** One token as the language model reports it. */
  datatype Token = Token(text: string, baseForm: string, isStop: bool, isPunct: bool)

  /** Lemmas dropped on top of the language model's stop words. */
  const ExtraStopwords: set<string> :=
    {"unidad", "capitulo", "tema", "semana", "clase", "docente", "alumno", "hora", "teoria", "practica"}

  /** Longest cleaned text handed to the language model. */
  const MaxAnalysed: nat := 500000

  /** Characters that survive cleaning: Latin letters, the Spanish accented
      vowels, ü and ñ in either case, and whitespace. */
  predicate Allowed(c: char) {
    || ('a' <= c <= 'z') || ('A' <= c <= 'Z')
    || c in "áéíóúüñÁÉÍÓÚÜÑ"
    || IsSpace(c)
  }

  /** `re.sub(r'[^…\s]', '', s)`: the allowed characters of `s`, in order. */
  function KeepAllowed(s: string): (r: string)
    ensures |r| <= |s|
    ensures forall i :: 0 <= i < |r| ==> Allowed(r[i])
  {
    if s == [] then []
    else (if Allowed(s[0]) then [s[0]] else []) + KeepAllowed(s[1..])
  }

  /** A string of allowed characters is kept whole. */
  lemma {:induction false} KeepAllowedFixed(s: string)
    requires forall i :: 0 <= i < |s| ==> Allowed(s[i])
    ensures KeepAllowed(s) == s
  {
    if s != [] {
      KeepAllowedFixed(s[1..]);
    }
  }

  /** Every kept character comes from `s`, so a string with no capitals
      has none after filtering. */
  lemma {:induction false} KeepAllowedFoldFixed(s: string)
    requires forall i :: 0 <= i < |s| ==> Fold(s[i]) == s[i]
    ensures forall i :: 0 <= i < |KeepAllowed(s)| ==> Fold(KeepAllowed(s)[i]) == KeepAllowed(s)[i]
  {
    if s != [] {
      KeepAllowedFoldFixed(s[1..]);
    }
  }

  lemma LowerFoldFixed(s: string)
    ensures forall i :: 0 <= i < |Lower(s)| ==> Fold(Lower(s)[i]) == Lower(s)[i]
  {
    forall i | 0 <= i < |s| {
      FoldIdempotent(s[i]);
    }
  }

  /** The text given to the language model: lower-cased, stripped of
      every character that is not a letter of the Spanish alphabet or
      whitespace, and cut to 500000 characters. */
  function CleanForTokens(text: string): (r: string)
    ensures |r| <= MaxAnalysed && |r| <= |text|
    ensures forall i :: 0 <= i < |r| ==> Allowed(r[i]) && Fold(r[i]) == r[i]
  {
    LowerFoldFixed(text);
    KeepAllowedFoldFixed(Lower(text));
    Take(KeepAllowed(Lower(text)), MaxAnalysed)
  }

  /** Cleaning a cleaned text changes nothing. */
  lemma CleanIdempotent(text: string)
    ensures CleanForTokens(CleanForTokens(text)) == CleanForTokens(text)
  {
    var c := CleanForTokens(text);
    assert Lower(c) == c;
    KeepAllowedFixed(c);
  }

  /** A token whose lemma is kept: not a stop word, not punctuation, and
      with text longer than two characters. */
  predicate Keeps(t: Token) {
    !t.isStop && !t.isPunct && |t.text| > 2 && Lower(t.baseForm) !in ExtraStopwords
  }

  /** The lower-cased lemmas of the kept tokens. */
  function LemmaSet(toks: seq<Token>): (r: set<string>)
    ensures |r| <= |toks|
    ensures forall w :: w in r <==> exists i :: 0 <= i < |toks| && Keeps(toks[i]) && Lower(toks[i].baseForm) == w
  {
    if toks == [] then {}
    else
      var rest := LemmaSet(toks[1..]);
      assert forall i :: 0 <= i < |toks[1..]| ==> toks[1..][i] == toks[i + 1];
      forall w | w !in rest && w != Lower(toks[0].baseForm)
        ensures !exists i :: 0 <= i < |toks| && Keeps(toks[i]) && Lower(toks[i].baseForm) == w
      {
        forall i | 0 < i < |toks| ensures !(Keeps(toks[i]) && Lower(toks[i].baseForm) == w) {
          assert toks[i] == toks[1..][i - 1];
        }
      }
      if Keeps(toks[0]) then {Lower(toks[0].baseForm)} + rest
      else rest
  }

  /** Every kept lemma is lower-case and not an extra stop word. */
  lemma LemmaSetClean(toks: seq<Token>, w: string)
    requires w in LemmaSet(toks)
    ensures Lower(w) == w
    ensures w !in ExtraStopwords
  {
    var i :| 0 <= i < |toks| && Keeps(toks[i]) && Lower(toks[i].baseForm) == w;
    LowerFoldFixed(toks[i].baseForm);
  }

  /** The lemma set of a token stream is the union over its parts: the
      order and grouping of the tokens do not matter. */
  lemma LemmaSetAppend(a: seq<Token>, b: seq<Token>)
    ensures LemmaSet(a + b) == LemmaSet(a) + LemmaSet(b)
  {
    forall w ensures w in LemmaSet(a + b) <==> w in LemmaSet(a) + LemmaSet(b) {
      if w in LemmaSet(a + b) {
        var i :| 0 <= i < |a + b| && Keeps((a + b)[i]) && Lower((a + b)[i].baseForm) == w;
        if i < |a| {
          assert (a + b)[i] == a[i];
        } else {
          assert (a + b)[i] == b[i - |a|];
        }
      }
      if w in LemmaSet(a) {
        var i :| 0 <= i < |a| && Keeps(a[i]) && Lower(a[i].baseForm) == w;
        assert (a + b)[i] == a[i];
      }
      if w in LemmaSet(b) {
        var i :| 0 <= i < |b| && Keeps(b[i]) && Lower(b[i].baseForm) == w;
        assert (a + b)[|a| + i] == b[i];
      }
    }
  }

  /** `limpiar_texto_para_tokens`: no lemmas for an empty text or when the
      language model could not be loaded; otherwise the lemma set of the
      tokens of the cleaned text. */
  function TokenSet(text: string, modelLoaded: bool, analyse: string -> seq<Token>): (r: set<string>)
    ensures text == [] || !modelLoaded ==> r == {}
    ensures forall w :: w in r ==> Lower(w) == w && w !in ExtraStopwords
    ensures text != [] && modelLoaded ==> r == LemmaSet(analyse(CleanForTokens(text)))
  {
    if text == [] || !modelLoaded then {}
    else
      var r := LemmaSet(analyse(CleanForTokens(text)));
      assert forall w :: w in r ==> Lower(w) == w && w !in ExtraStopwords by {
        forall w | w in r ensures Lower(w) == w && w !in ExtraStopwords {
          LemmaSetClean(analyse(CleanForTokens(text)), w);
        }
      }
      r
  }

  /** `calcular_jaccard`: 0 when either set is empty, otherwise the size of
      the intersection over the size of the union. */
  function Jaccard(a: set<string>, b: set<string>): (r: real)
    ensures 0.0 <= r <= 1.0
    ensures a == {} || b == {} ==> r == 0.0
  {
    if a == {} || b == {} then 0.0
    else
      SubsetCard(a * b, a + b);
      SubsetCard(a, a + b);
      (|a * b| as real) / (|a + b| as real)
  }

  lemma JaccardSymmetric(a: set<string>, b: set<string>)
    ensures Jaccard(a, b) == Jaccard(b, a)
  {
    assert a * b == b * a && a + b == b + a;
  }

  /** The similarity is 1 exactly for two equal non-empty sets. */
  lemma JaccardOneIffEqual(a: set<string>, b: set<string>)
    ensures Jaccard(a, b) == 1.0 <==> a == b && a != {}
  {
    if a != {} && b != {} {
      SubsetCard(a, a + b);
      if Jaccard(a, b) == 1.0 {
        assert |a * b| == |a + b|;
        SubsetSameCard(a * b, a + b);
        assert a == b by {
          assert a <= a * b && b <= a * b;
        }
      }
      if a == b {
        assert a * b == a + b;
      }
    }
  }

  /** The similarity is 0 exactly when the sets share nothing. */
  lemma JaccardZeroIffDisjoint(a: set<string>, b: set<string>)
    ensures Jaccard(a, b) == 0.0 <==> a * b == {}
  {
    if a != {} && b != {} {
      SubsetCard(a, a + b);
      if a * b != {} {
        var x :| x in a * b;
        SubsetCard({x}, a * b);
      }
    } else {
      assert a * b == {};
    }
  }

  /** Sharing more lemmas with a fixed set, at the same union size, never
      lowers the similarity: adding a lemma of `a` to `b` raises it. */
  lemma JaccardGrowsWithSharedLemma(a: set<string>, b: set<string>, x: string)
    requires a != {} && b != {}
    requires x in a && x !in b
    ensures Jaccard(a, b) < Jaccard(a, b + {x})
  {
    assert a * (b + {x}) == a * b + {x};
    assert a + (b + {x}) == a + b;
    assert x !in a * b;
    SubsetCard(a * b, a + b);
    assert |a * b + {x}| == |a * b| + 1;
  }
}
