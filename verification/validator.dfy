/** The keyword test that tells an official UNSA syllabus from any other
    PDF (`validar_es_silabo_unsa`). */
module Validator {
  import opened Base
  import opened Text

  /** Phrases that almost only occur in an official syllabus: 2 points each.
      Accented and unaccented spellings are separate entries. */
  const HighKeywords: seq<string> := [
    "universidad nacional de san agustín", "información académica",
    "competencias", "contenido tematico", "contenido temático",
    "estrategias de evaluación", "bibliografía", "cronograma académico"
  ]

  /** Words that usually occur in a syllabus: 1 point each. */
  const ContextKeywords: seq<string> := [
    "silabo", "sílabo", "asignatura", "créditos", "creditos",
    "docente", "escuela profesional", "semestre", "prerrequisitos"
  ]

  /** The score a text needs to pass. */
  const PassScore: nat := 6

  predicate Distinct(kws: seq<string>) {
    forall i, j :: 0 <= i < j < |kws| ==> kws[i] != kws[j]
  }

  /** The keywords of `kws` that occur in `t`. */
  function Present(kws: seq<string>, t: string): set<string> {
    set k | k in kws && Contains(t, k)
  }

  /** How many entries of `kws` occur in `t`, one list entry at a time, as
      the scoring loops do. */
  function Hits(kws: seq<string>, t: string): (n: nat)
    ensures n <= |kws|
  {
    if kws == [] then 0
    else (if Contains(t, kws[0]) then 1 else 0) + Hits(kws[1..], t)
  }

  /** For a list without repeats the loop count is the number of distinct
      keywords present. */
  lemma {:induction false} HitsCountsPresent(kws: seq<string>, t: string)
    requires Distinct(kws)
    ensures Hits(kws, t) == |Present(kws, t)|
  {
    if kws == [] {
      assert Present(kws, t) == {};
    } else {
      var tail := kws[1..];
      assert Distinct(tail) by {
        forall i, j | 0 <= i < j < |tail| ensures tail[i] != tail[j] {
          assert tail[i] == kws[i + 1] && tail[j] == kws[j + 1];
        }
      }
      HitsCountsPresent(tail, t);
      assert kws[0] !in tail by {
        forall j | 0 <= j < |tail| ensures tail[j] != kws[0] {
          assert tail[j] == kws[j + 1];
        }
      }
      assert forall k :: k in kws <==> k == kws[0] || k in tail;
      if Contains(t, kws[0]) {
        assert Present(kws, t) == {kws[0]} + Present(tail, t);
      } else {
        assert Present(kws, t) == Present(tail, t);
      }
    }
  }

  /** The weighted keyword score of an already lower-cased text. */
  function Score(lowered: string): (n: nat)
    ensures n <= 2 * |HighKeywords| + |ContextKeywords|
  {
    2 * Hits(HighKeywords, lowered) + Hits(ContextKeywords, lowered)
  }

  /** `validar_es_silabo_unsa`: an empty text is rejected; otherwise the
      text passes when twice the number of distinct high-confidence
      keywords plus the number of distinct context keywords occurring in
      its lower-cased form reaches 6. */
  function IsOfficialSyllabus(text: string): (r: bool)
    ensures r <==> (text != [] &&
                    2 * |Present(HighKeywords, Lower(text))|
                      + |Present(ContextKeywords, Lower(text))| >= PassScore)
  {
    KeywordListsDistinct();
    HitsCountsPresent(HighKeywords, Lower(text));
    HitsCountsPresent(ContextKeywords, Lower(text));
    text != [] && Score(Lower(text)) >= PassScore
  }

  /** Neither keyword list repeats an entry. */
  lemma KeywordListsDistinct()
    ensures Distinct(HighKeywords) && Distinct(ContextKeywords)
  {
  }

  lemma PresentGrows(kws: seq<string>, a: string, b: string)
    ensures Present(kws, Lower(a)) <= Present(kws, Lower(a + b))
    ensures Present(kws, Lower(b)) <= Present(kws, Lower(a + b))
  {
    LowerAppend(a, b);
    forall k | k in Present(kws, Lower(a)) ensures k in Present(kws, Lower(a + b)) {
      ContainsExtend(Lower(a), Lower(b), k);
    }
    forall k | k in Present(kws, Lower(b)) ensures k in Present(kws, Lower(a + b)) {
      ContainsExtend(Lower(b), Lower(a), k);
    }
  }

  /** Adding text before or after a syllabus never makes it fail the test:
      the score only counts occurrences, and occurrences survive. */
  lemma {:induction false} OfficialSyllabusExtend(a: string, b: string)
    requires IsOfficialSyllabus(a)
    ensures IsOfficialSyllabus(a + b)
    ensures IsOfficialSyllabus(b + a)
  {
    PresentGrows(HighKeywords, a, b);
    PresentGrows(ContextKeywords, a, b);
    PresentGrows(HighKeywords, b, a);
    PresentGrows(ContextKeywords, b, a);
    SubsetCard(Present(HighKeywords, Lower(a)), Present(HighKeywords, Lower(a + b)));
    SubsetCard(Present(ContextKeywords, Lower(a)), Present(ContextKeywords, Lower(a + b)));
    SubsetCard(Present(HighKeywords, Lower(a)), Present(HighKeywords, Lower(b + a)));
    SubsetCard(Present(ContextKeywords, Lower(a)), Present(ContextKeywords, Lower(b + a)));
  }

  /** The accented and unaccented spellings of "créditos" are two keywords:
      a text holding both scores two context points for them. */
  lemma AccentVariantsCountTwice(text: string)
    requires Contains(Lower(text), "créditos") && Contains(Lower(text), "creditos")
    ensures |Present(ContextKeywords, Lower(text))| >= 2
  {
    assert ContextKeywords[3] == "créditos" && ContextKeywords[4] == "creditos";
    assert {"créditos", "creditos"} <= Present(ContextKeywords, Lower(text));
    SubsetCard({"créditos", "creditos"}, Present(ContextKeywords, Lower(text)));
  }

  /** Three high-confidence phrases alone are enough. */
  lemma ThreeHighKeywordsPass(text: string)
    requires Contains(Lower(text), "competencias")
    requires Contains(Lower(text), "bibliografía")
    requires Contains(Lower(text), "cronograma académico")
    ensures IsOfficialSyllabus(text)
  {
    assert HighKeywords[2] == "competencias" && HighKeywords[6] == "bibliografía"
           && HighKeywords[7] == "cronograma académico";
    var three := {"competencias", "bibliografía", "cronograma académico"};
    assert three <= Present(HighKeywords, Lower(text));
    SubsetCard(three, Present(HighKeywords, Lower(text)));
  }
}
