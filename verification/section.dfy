/** Isolating the "CONTENIDO TEMÁTICO" section of a syllabus
    (`extraer_solo_contenido_tematico`). */
module Section {
  import opened Base
  import opened Text
  import opened Pattern

  /** `s.replace('\r\n', '\n')`: a left-to-right scan that replaces each
      non-overlapping carriage-return/line-feed pair by a line feed. */
  function NormaliseNewlines(s: string): (r: string)
    ensures |r| <= |s|
  {
    if |s| >= 2 && s[0] == '\r' && s[1] == '\n' then "\n" + NormaliseNewlines(s[2..])
    else if s == [] then []
    else [s[0]] + NormaliseNewlines(s[1..])
  }

  /** `s` with every carriage return removed. */
  function DropCR(s: string): (r: string)
    ensures forall i :: 0 <= i < |r| ==> r[i] != '\r'
  {
    if s == [] then []
    else (if s[0] == '\r' then [] else [s[0]]) + DropCR(s[1..])
  }

  /** Normalising only ever deletes carriage returns: every other
      character survives, in order. */
  lemma {:induction false} NormaliseKeepsAllButCR(s: string)
    ensures DropCR(NormaliseNewlines(s)) == DropCR(s)
  {
    if |s| >= 2 && s[0] == '\r' && s[1] == '\n' {
      NormaliseKeepsAllButCR(s[2..]);
      assert DropCR(s) == DropCR(s[1..]);
      assert s[1..][1..] == s[2..];
      assert DropCR("\n" + NormaliseNewlines(s[2..])) == "\n" + DropCR(NormaliseNewlines(s[2..])) by {
        assert ("\n" + NormaliseNewlines(s[2..]))[1..] == NormaliseNewlines(s[2..]);
      }
    } else if s != [] {
      NormaliseKeepsAllButCR(s[1..]);
      assert ([s[0]] + NormaliseNewlines(s[1..]))[1..] == NormaliseNewlines(s[1..]);
    }
  }

  /** A text without carriage returns is left as it is. */
  lemma {:induction false} NormaliseWithoutCR(s: string)
    requires forall i :: 0 <= i < |s| ==> s[i] != '\r'
    ensures NormaliseNewlines(s) == s
  {
    if s != [] {
      NormaliseWithoutCR(s[1..]);
    }
  }

  /** The scan is single-pass: a carriage return left in front of a pair
      meets the pair's line feed only afterwards. */
  lemma NormaliseIsSinglePass()
    ensures NormaliseNewlines("\r\r\n") == "\r\n"
  {
    assert "\r\r\n"[1..] == "\r\n";
    assert "\r\n"[2..] == "";
  }

  /** `(?:CONTENIDO)\s+TEM[ÁA]TICO|CONTENIDO`, case-insensitive. */
  const StartAlts: seq<Pat> := [
    [Word("CONTENIDO"), Run(Space, true), Word("TEM"), OneOf("ÁA"), Word("TICO")],
    [Word("CONTENIDO")]
  ]

  /** The words `ws` in order, each preceded by `\s+`. */
  function Spaced(ws: seq<string>): (p: Pat)
    ensures |p| == 2 * |ws|
  {
    if ws == [] then [] else [Run(Space, true), Word(ws[0])] + Spaced(ws[1..])
  }

  /** The heading of the "investigación formativa y responsabilidad social"
      section, numbered 6:
      `6\.\s*PROGRAMACI[ÓO]N\s+DE\s+ACTIVIDADES\s+DE\s+INVESTIG\.\s+FORMATIVA\s+Y\s+RESPONSABILIDAD\s+SOCIAL`. */
  const EndResearch: Pat := ResearchHead + Spaced(ResearchWords)
  const ResearchHead: Pat := [Word("6."), Run(Space, false), Word("PROGRAMACI"), OneOf("ÓO"), Word("N")]
  const ResearchWords: seq<string> :=
    ["DE", "ACTIVIDADES", "DE", "INVESTIG.", "FORMATIVA", "Y", "RESPONSABILIDAD", "SOCIAL"]

  /** `\d+\.\s*ESTRATEGIAS\s+DE\s+ENSEÑANZA`. */
  const EndStrategies: Pat := StrategiesHead + Spaced(StrategiesWords)
  const StrategiesHead: Pat := [Run(Digit, true), Word("."), Run(Space, false), Word("ESTRATEGIAS")]
  const StrategiesWords: seq<string> := ["DE", "ENSEÑANZA"]

  /** `\d+\.\s*ESTRATEGIAS\s+DE\s+ENSEÑANZA\s+APRENDIZAJE`. */
  const EndStrategiesLearning: Pat := EndStrategies + Spaced(LearningWords)
  const LearningWords: seq<string> := ["APRENDIZAJE"]

  /** The three end headings, in the order the source lists them. */
  const EndAlts: seq<Pat> := [EndResearch, EndStrategies, EndStrategiesLearning]

  /** Longest text kept when the section heading is missing. */
  const NoHeadingLimit: nat := 2000
  /** Longest text kept after the heading when no end heading follows. */
  const NoEndLimit: nat := 3000

  /** Where the section ends once its start heading has been cut off: at
      the first end heading, or after 3000 characters when there is none. */
  function SectionEnd(rest: string): (b: nat)
    ensures b <= |rest|
  {
    match Search(EndAlts, rest, 0)
    case Some(e) => e.start
    case None => if |rest| < NoEndLimit then |rest| else NoEndLimit
  }

  /** `extraer_solo_contenido_tematico`: without a start heading, the first
      2000 characters of the normalised text as they are; with one, the
      stripped slice of the text from where the heading ends to where the
      section ends. */
  function ThematicSection(raw: string): (r: string)
    ensures var t := NormaliseNewlines(raw);
            Search(StartAlts, t, 0).None? ==> r == Take(t, NoHeadingLimit)
  {
    var t := NormaliseNewlines(raw);
    match Search(StartAlts, t, 0)
    case None => Take(t, NoHeadingLimit)
    case Some(m) => Strip(SectionFrom(t, m.end))
  }

  /** The text from `a`, where the start heading ends, up to where the
      section ends. */
  function SectionFrom(t: string, a: nat): (r: string)
    requires a <= |t|
    ensures r == t[a..][..SectionEnd(t[a..])]
  {
    t[a..a + SectionEnd(t[a..])]
  }

  /** The word "CONTENIDO" in any case occurs at `i`. */
  predicate ContenidoAt(t: string, i: nat) {
    WordAt("CONTENIDO", t, i)
  }

  /** Where "CONTENIDO", whitespace, "TEM", "Á" or "A" and "TICO" match
      at `i`, the end of that match. */
  function LongHeadingEnd(t: string, i: nat): (r: Option<nat>)
    requires i <= |t|
  {
    if !ContenidoAt(t, i) then None
    else
      var e := RunEnd(Space, t, i + 9);
      if e > i + 9 && WordAt("TEM", t, e) && OneOfAt("ÁA", t, e + 3) && WordAt("TICO", t, e + 4)
      then Some(e + 8) else None
  }

  /** The greedy reading of `CONTENIDO\s+TEM[ÁA]TICO`, token by token. */
  lemma LongHeadingMatch(t: string, i: nat)
    requires i <= |t|
    ensures MatchSeq(StartAlts[0], t, i) == LongHeadingEnd(t, i)
  {
    var p := StartAlts[0];
    assert p[1..] == [Run(Space, true), Word("TEM"), OneOf("ÁA"), Word("TICO")];
    assert p[1..][1..] == [Word("TEM"), OneOf("ÁA"), Word("TICO")];
    assert p[1..][1..][1..] == [OneOf("ÁA"), Word("TICO")];
    assert p[1..][1..][1..][1..] == [Word("TICO")];
    assert p[1..][1..][1..][1..][1..] == [];
  }

  /** The greedy reading of the bare `CONTENIDO`. */
  lemma ShortHeadingMatch(t: string, i: nat)
    requires i <= |t|
    ensures MatchSeq(StartAlts[1], t, i) == if ContenidoAt(t, i) then Some(i + 9) else None
  {
    assert StartAlts[1][1..] == [];
  }

  /** The start heading matches exactly where "CONTENIDO" occurs; the
      match covers "CONTENIDO", then, if whitespace and "TEMÁTICO" or
      "TEMATICO" follow, those too. */
  lemma StartMatchesAtContenido(t: string, i: nat)
    requires i <= |t|
    ensures FirstAlt(StartAlts, t, i).Some? <==> ContenidoAt(t, i)
    ensures ContenidoAt(t, i) ==>
              var e := RunEnd(Space, t, i + 9);
              FirstAlt(StartAlts, t, i) ==
                if e > i + 9 && WordAt("TEM", t, e) && OneOfAt("ÁA", t, e + 3)
                   && WordAt("TICO", t, e + 4)
                then Some(e + 8) else Some(i + 9)
  {
    LongHeadingMatch(t, i);
    ShortHeadingMatch(t, i);
    assert StartAlts[1..][0] == StartAlts[1] && StartAlts[1..][1..] == [];
  }

  /** The start heading matches at `i` exactly where "CONTENIDO" does. */
  lemma StartMatchesIff(t: string, i: nat)
    requires i <= |t|
    ensures FirstAlt(StartAlts, t, i).Some? <==> ContenidoAt(t, i)
  {
    StartMatchesAtContenido(t, i);
  }

  /** Where the section begins: the end of the heading at the first
      "CONTENIDO", whatever the case, and nowhere if there is none. */
  lemma SectionStartsAfterFirstContenido(t: string)
    ensures Search(StartAlts, t, 0).None? <==> forall i :: 0 <= i <= |t| ==> !ContenidoAt(t, i)
    ensures Search(StartAlts, t, 0).Some? ==>
              var a := Search(StartAlts, t, 0).value.start;
              ContenidoAt(t, a) && forall i :: 0 <= i < a ==> !ContenidoAt(t, i)
  {
    match Search(StartAlts, t, 0)
    case None =>
      forall i | 0 <= i <= |t| ensures !ContenidoAt(t, i) {
        StartMatchesIff(t, i);
      }
    case Some(m) =>
      StartMatchesIff(t, m.start);
      forall i | 0 <= i < m.start ensures !ContenidoAt(t, i) {
        StartMatchesIff(t, i);
      }
  }

  /** Every word starts with a capital letter. */
  predicate Capitalised(ws: seq<string>) {
    forall i :: 0 <= i < |ws| ==> |ws[i]| > 0 && 'A' <= ws[i][0] <= 'Z'
  }

  /** Words joined by `\s+` form a well-formed pattern when every word
      starts with a letter, which whitespace cannot continue. */
  lemma {:induction false} SpacedWellFormed(ws: seq<string>)
    requires Capitalised(ws)
    ensures WellFormed(Spaced(ws))
    ensures Spaced(ws) != [] ==> Spaced(ws)[|Spaced(ws)| - 1].Word?
  {
    if ws != [] {
      assert Capitalised(ws[1..]) by {
        forall i | 0 <= i < |ws[1..]| ensures |ws[1..][i]| > 0 && 'A' <= ws[1..][i][0] <= 'Z' {
          assert ws[1..][i] == ws[i + 1];
        }
      }
      SpacedWellFormed(ws[1..]);
      assert !IsSpace(Fold(ws[0][0]));
      WellFormedAppend([Run(Space, true), Word(ws[0])], Spaced(ws[1..]));
    }
  }

  lemma StartWellFormed()
    ensures WellFormed(StartAlts[0]) && WellFormed(StartAlts[1])
  {
    ShapeCheckedWellFormed(StartAlts[0]);
    ShapeCheckedWellFormed(StartAlts[1]);
  }

  /** A checked heading that ends in a literal, followed by capitalised
      words, is well formed. */
  lemma HeadThenSpacedWellFormed(h: Pat, ws: seq<string>)
    requires ShapeChecked(h) && h != [] && !h[|h| - 1].Run?
    requires Capitalised(ws)
    ensures WellFormed(h + Spaced(ws))
  {
    ShapeCheckedWellFormed(h);
    SpacedWellFormed(ws);
    WellFormedAppend(h, Spaced(ws));
  }

  lemma ResearchWellFormed()
    ensures WellFormed(EndResearch)
  {
    HeadThenSpacedWellFormed(ResearchHead, ResearchWords);
  }

  lemma StrategiesWellFormed()
    ensures WellFormed(EndStrategies)
  {
    HeadThenSpacedWellFormed(StrategiesHead, StrategiesWords);
  }

  lemma StrategiesLearningWellFormed()
    ensures WellFormed(EndStrategiesLearning)
  {
    StrategiesWellFormed();
    SpacedWellFormed(StrategiesWords);
    SpacedWellFormed(LearningWords);
    assert EndStrategies[|EndStrategies| - 1] == Spaced(StrategiesWords)[|Spaced(StrategiesWords)| - 1];
    WellFormedAppend(EndStrategies, Spaced(LearningWords));
  }

  /** Every heading pattern has the shape the greedy matcher needs. */
  lemma HeadingPatternsWellFormed()
    ensures AllWellFormed(StartAlts)
    ensures AllWellFormed(EndAlts)
  {
    StartWellFormed();
    forall n | 0 <= n < |StartAlts| ensures WellFormed(StartAlts[n]) {
    }
    EndAltsWellFormed();
  }

  lemma EndAltsWellFormed()
    ensures AllWellFormed(EndAlts)
  {
    forall n | 0 <= n < |EndAlts| ensures WellFormed(EndAlts[n]) {
      if n == 0 {
        ResearchWellFormed();
      } else if n == 1 {
        StrategiesWellFormed();
      } else {
        StrategiesLearningWellFormed();
      }
    }
  }

  /** The third end heading extends the second, so wherever it matches the
      second already matched at the same place: listing it changes no
      search result. */
  lemma ThirdEndHeadingRedundant(s: string)
    ensures Search(EndAlts, s, 0) == Search([EndResearch, EndStrategies], s, 0)
  {
    var two := [EndResearch, EndStrategies];
    assert EndAlts == two + [EndStrategiesLearning];
    forall q | 0 <= q <= |s|
      ensures FirstAlt(EndAlts, s, q) == FirstAlt(two, s, q)
    {
      if MatchSeq(EndStrategiesLearning, s, q).Some? {
        MatchSeqPrefix(EndStrategies, Spaced(LearningWords), s, q);
        assert two[1..][0] == EndStrategies;
      }
      FirstAltDropLast(two, EndStrategiesLearning, s, q);
    }
    SearchSameAlts(EndAlts, two, s, 0);
  }

  /** `b` is the leftmost position of `rest` where some end heading can be
      read. */
  ghost predicate LeftmostEndHeading(rest: string, b: nat) {
    b <= |rest| && SomeAltAt(EndAlts, rest, b) && forall q :: 0 <= q < b ==> !SomeAltAt(EndAlts, rest, q)
  }

  /** No end heading can be read anywhere in `rest`. */
  ghost predicate NoEndHeading(rest: string) {
    forall q :: 0 <= q <= |rest| ==> !SomeAltAt(EndAlts, rest, q)
  }

  /** The text after the start heading. */
  function AfterStart(raw: string): (rest: string)
    requires Search(StartAlts, NormaliseNewlines(raw), 0).Some?
    ensures var t := NormaliseNewlines(raw);
            rest == t[Search(StartAlts, t, 0).value.end..]
  {
    var t := NormaliseNewlines(raw);
    t[Search(StartAlts, t, 0).value.end..]
  }

  /** With a start heading, the section is the stripped text after it: up
      to the leftmost end heading when one can be read, and otherwise its
      first 3000 characters. */
  lemma SectionBetweenHeadings(raw: string)
    requires Search(StartAlts, NormaliseNewlines(raw), 0).Some?
    ensures forall b: nat :: LeftmostEndHeading(AfterStart(raw), b) ==> ThematicSection(raw) == Strip(AfterStart(raw)[..b])
    ensures NoEndHeading(AfterStart(raw)) ==> ThematicSection(raw) == Strip(Take(AfterStart(raw), NoEndLimit))
  {
    forall b: nat | LeftmostEndHeading(AfterStart(raw), b)
      ensures ThematicSection(raw) == Strip(AfterStart(raw)[..b])
    {
      SectionAtEndHeading(raw, b);
    }
    if NoEndHeading(AfterStart(raw)) {
      NoEndHeadingBounded(raw);
    }
  }

  /** With an end heading read leftmost at `b`, the section is the stripped
      text before `b`. */
  lemma SectionAtEndHeading(raw: string, b: nat)
    requires Search(StartAlts, NormaliseNewlines(raw), 0).Some?
    requires LeftmostEndHeading(AfterStart(raw), b)
    ensures ThematicSection(raw) == Strip(AfterStart(raw)[..b])
  {
    var t := NormaliseNewlines(raw);
    EndHeadingIsSectionEnd(AfterStart(raw), b);
    assert ThematicSection(raw) == Strip(SectionFrom(t, Search(StartAlts, t, 0).value.end));
  }

  /** The section ends at the leftmost end heading. */
  lemma EndHeadingIsSectionEnd(rest: string, b: nat)
    requires LeftmostEndHeading(rest, b)
    ensures SectionEnd(rest) == b
  {
    HeadingPatternsWellFormed();
    SearchIsLeftmostFirst(EndAlts, rest);
    SectionEndIsLeftmostEndHeading(rest);
  }

  /** When an end heading follows, the section stops at the leftmost
      position where any end heading matches, in the sense of every
      possible reading of the patterns and not only the greedy one. */
  lemma SectionEndIsLeftmostEndHeading(rest: string)
    requires Search(EndAlts, rest, 0).Some?
    ensures SomeAltAt(EndAlts, rest, SectionEnd(rest))
    ensures forall q :: 0 <= q < SectionEnd(rest) ==> !SomeAltAt(EndAlts, rest, q)
  {
    HeadingPatternsWellFormed();
    SearchFindsLeftmost(EndAlts, rest);
  }

  /** Without an end heading, no end heading can be read anywhere after
      the start heading. */
  lemma NoEndHeadingAnywhere(rest: string)
    requires Search(EndAlts, rest, 0).None?
    ensures forall q :: 0 <= q <= |rest| ==> !SomeAltAt(EndAlts, rest, q)
  {
    HeadingPatternsWellFormed();
    SearchIsLeftmostFirst(EndAlts, rest);
  }

  /** Without any start heading the result is a prefix of the normalised
      text of at most 2000 characters; running the extractor again on such
      a result only truncates it further. */
  lemma NoHeadingGivesPrefix(raw: string)
    requires forall i :: 0 <= i <= |NormaliseNewlines(raw)| ==> !ContenidoAt(NormaliseNewlines(raw), i)
    ensures var t := NormaliseNewlines(raw);
            |ThematicSection(raw)| <= NoHeadingLimit && ThematicSection(raw) <= t
  {
    SectionStartsAfterFirstContenido(NormaliseNewlines(raw));
  }

  /** With a start heading and no end heading, the section is the
      stripped first 3000 characters after the heading, so at most 3000
      characters long. */
  lemma NoEndHeadingBounded(raw: string)
    requires Search(StartAlts, NormaliseNewlines(raw), 0).Some?
    requires NoEndHeading(AfterStart(raw))
    ensures ThematicSection(raw) == Strip(Take(AfterStart(raw), NoEndLimit))
    ensures |ThematicSection(raw)| <= NoEndLimit
  {
    var t := NormaliseNewlines(raw);
    NoEndHeadingCutsAtLimit(AfterStart(raw));
    assert ThematicSection(raw) == Strip(SectionFrom(t, Search(StartAlts, t, 0).value.end));
  }

  /** Without an end heading the section ends after 3000 characters, or
      with the text. */
  lemma NoEndHeadingCutsAtLimit(rest: string)
    requires NoEndHeading(rest)
    ensures rest[..SectionEnd(rest)] == Take(rest, NoEndLimit)
  {
    HeadingPatternsWellFormed();
    SearchIsLeftmostFirst(EndAlts, rest);
  }
}
