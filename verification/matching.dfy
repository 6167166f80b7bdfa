/** Placing a course in an equivalence group (`procesar_y_agrupar_curso`
    and `crear_grupo_nuevo`). The course is compared with every group that
    already holds a course of the same credits: semantically, through the
    cosine similarity of its embedding to the group's centroid, and
    lexically, through the best Jaccard similarity of its lemmas to those
    of the group's other courses. It joins the best compatible group, or
    founds a new one. The embedding model, the centroid and the cosine
    similarity are not part of this model: they are the parameters in
    `Models`. */
module Matching {
  import opened Base
  import opened Text
  import opened Domain
  import opened Extraction
  import opened Lexical

  /** What the matcher obtains from the machine-learning libraries. */
  datatype Models = Models(
    transformerLoaded: bool,           // the sentence-embedding model could be loaded
    nlpLoaded: bool,                   // the language model could be loaded
    analyse: string -> seq<Token>,     // the language model's tokens of a text
    embed: string -> seq<real>,        // the embedding of a non-empty text
    semantic: GroupId -> real          // cosine similarity of the course to a group's centroid
  )

  /** Score a match must exceed for the course to join a group. */
  const AssignThreshold: real := 0.65

  /** The two ways a group can be compatible: very similar meaning and a
      fair lexical overlap, or near-identical meaning and a small one. */
  predicate Compatible(ia: real, j: real) {
    (ia > 0.82 && j > 0.35) || (ia > 0.92 && j > 0.20)
  }

  /** The hybrid score: 70% semantic, 30% lexical. */
  function Hybrid(ia: real, j: real): real {
    ia * 0.70 + j * 0.30
  }

  /** Every compatible group scores above 0.679, so above the assignment
      threshold: the threshold never turns down a compatible group. */
  lemma CompatibleClearsThreshold(ia: real, j: real)
    requires Compatible(ia, j)
    ensures Hybrid(ia, j) > 0.679
    ensures Hybrid(ia, j) > AssignThreshold
  {
  }

  /** Two worked cases: 0.85 and 0.40 are compatible with score 0.715;
      0.80 and 0.50 are not compatible at all. */
  lemma CompatibilityExamples()
    ensures Compatible(0.85, 0.40) && Hybrid(0.85, 0.40) == 0.715
    ensures !Compatible(0.80, 0.50)
  {
  }

  /** Some course of group `g` has `credits` credits. */
  predicate HasMemberWithCredits(st: Store, g: GroupId, credits: nat) {
    exists c :: c in st.courses && st.courses[c].group == Some(g) && st.courses[c].credits == credits
  }

  /** The groups from `g` on that hold a course with `credits` credits, in
      ascending order (`filter(instancias_curso__creditos=…).distinct()`). */
  function CandidatesFrom(st: Store, credits: nat, g: nat): (r: seq<GroupId>)
    requires g <= |st.groups|
    ensures forall x :: x in r <==> g <= x < |st.groups| && HasMemberWithCredits(st, x, credits)
    ensures forall i, k :: 0 <= i < k < |r| ==> r[i] < r[k]
    decreases |st.groups| - g
  {
    if g == |st.groups| then []
    else
      var rest := CandidatesFrom(st, credits, g + 1);
      assert forall i :: 0 <= i < |rest| ==> rest[i] in rest;
      (if HasMemberWithCredits(st, g, credits) then [g] else []) + rest
  }

  /** `calcular_centroide_grupo` returns a vector: some course of the
      group has an embedding. */
  predicate HasCentroid(st: Store, g: GroupId) {
    exists c :: c in st.courses && st.courses[c].group == Some(g) && st.courses[c].embedding.Some?
  }

  /** The courses of group `g` other than `c`. */
  function OthersOf(st: Store, g: GroupId, c: CourseId): (r: set<CourseId>)
    ensures forall x :: x in r <==> x in st.courses && st.courses[x].group == Some(g) && x != c
  {
    set x | x in st.courses && st.courses[x].group == Some(g) && x != c
  }

  /** The running maximum of the loop over a group's courses, starting
      from `acc` and replacing it only by a strictly larger value. */
  function MaxFrom(xs: seq<real>, acc: real): (m: real)
    ensures m >= acc
    ensures forall i :: 0 <= i < |xs| ==> xs[i] <= m
    ensures m == acc || m in xs
  {
    if xs == [] then acc
    else
      var m := MaxFrom(xs[1..], if xs[0] > acc then xs[0] else acc);
      assert forall i :: 1 <= i < |xs| ==> xs[i] == xs[1..][i - 1];
      assert m in xs[1..] ==> m in xs;
      m
  }

  /** The lexical similarity of the course's lemmas to those of course `x`. */
  function Similarity(st: Store, x: CourseId, tokens: set<string>, m: Models): real
    requires x in st.courses
  {
    Jaccard(tokens, TokenSet(st.courses[x].cache, m.nlpLoaded, m.analyse))
  }

  /** The similarities to the courses `ids`, in order. */
  function Similarities(st: Store, ids: seq<CourseId>, tokens: set<string>, m: Models): (r: seq<real>)
    requires forall i :: 0 <= i < |ids| ==> ids[i] in st.courses
    ensures |r| == |ids|
    ensures forall i :: 0 <= i < |ids| ==> r[i] == Similarity(st, ids[i], tokens, m)
  {
    seq(|ids|, i requires 0 <= i < |ids| => Similarity(st, ids[i], tokens, m))
  }

  /** `max_jaccard`: the best lexical similarity of the course to another
      course of the group, 0 when there is none. */
  function MaxJaccard(st: Store, g: GroupId, c: CourseId, tokens: set<string>, m: Models): (r: real)
    ensures 0.0 <= r <= 1.0
    ensures forall x :: x in OthersOf(st, g, c) ==> Similarity(st, x, tokens, m) <= r
    ensures r == 0.0 || exists x :: x in OthersOf(st, g, c) && r == Similarity(st, x, tokens, m)
  {
    var ids := Sorted(OthersOf(st, g, c));
    var xs := Similarities(st, ids, tokens, m);
    var r := MaxFrom(xs, 0.0);
    assert forall x :: x in OthersOf(st, g, c) ==> Similarity(st, x, tokens, m) <= r by {
      forall x | x in OthersOf(st, g, c) ensures Similarity(st, x, tokens, m) <= r {
        var i :| 0 <= i < |ids| && ids[i] == x;
        assert xs[i] == Similarity(st, x, tokens, m);
      }
    }
    assert r == 0.0 || exists x :: x in OthersOf(st, g, c) && r == Similarity(st, x, tokens, m) by {
      if r != 0.0 {
        var i :| 0 <= i < |xs| && xs[i] == r;
        assert ids[i] in OthersOf(st, g, c);
      }
    }
    r
  }

  /** One group evaluated for the course. */
  datatype Candidate = Candidate(group: GroupId, ia: real, j: real)

  function Score(k: Candidate): real {
    Hybrid(k.ia, k.j)
  }

  predicate IsCompatible(k: Candidate) {
    Compatible(k.ia, k.j)
  }

  /** Group `g` evaluated for the course. */
  function Evaluation(st: Store, c: CourseId, tokens: set<string>, m: Models, g: GroupId): (k: Candidate)
    ensures k.group == g
  {
    Candidate(g, m.semantic(g), MaxJaccard(st, g, c, tokens, m))
  }

  /** The groups of `gs`, in order, that have a centroid
      (`if centroide is None: continue`). */
  function WithCentroid(st: Store, gs: seq<GroupId>): (r: seq<GroupId>)
    ensures forall g :: g in r <==> g in gs && HasCentroid(st, g)
    ensures (forall i, k :: 0 <= i < k < |gs| ==> gs[i] < gs[k]) ==>
              forall i, k :: 0 <= i < k < |r| ==> r[i] < r[k]
  {
    if gs == [] then []
    else
      var rest := WithCentroid(st, gs[1..]);
      assert forall i :: 0 <= i < |rest| ==> rest[i] in rest;
      assert forall g :: g in gs[1..] ==> g in gs;
      (if HasCentroid(st, gs[0]) then [gs[0]] else []) + rest
  }

  /** The candidates of `gs` that have a centroid, in order, with their two
      similarities. */
  function Evaluate(st: Store, c: CourseId, tokens: set<string>, m: Models, gs: seq<GroupId>): (r: seq<Candidate>)
    ensures |r| == |WithCentroid(st, gs)|
    ensures forall k :: 0 <= k < |r| ==> r[k] == Evaluation(st, c, tokens, m, WithCentroid(st, gs)[k])
  {
    var kept := WithCentroid(st, gs);
    seq(|kept|, k requires 0 <= k < |kept| => Evaluation(st, c, tokens, m, kept[k]))
  }

  /** What the selection loop knows after the first `i` candidates: either
      none of them was compatible and nothing is chosen, or the chosen one
      is compatible, has the best score among the compatible ones seen,
      and beats every compatible one before it. */
  predicate BestSoFar(cands: seq<Candidate>, i: nat, best: Option<nat>, score: real)
    requires i <= |cands|
  {
    match best
    case None => score == 0.0 && forall k :: 0 <= k < i ==> !IsCompatible(cands[k])
    case Some(b) =>
      && b < i
      && IsCompatible(cands[b])
      && score == Score(cands[b])
      && (forall k :: 0 <= k < i && IsCompatible(cands[k]) ==> Score(cands[k]) <= score)
      && (forall k :: 0 <= k < b && IsCompatible(cands[k]) ==> Score(cands[k]) < score)
  }

  /** The selection loop from candidate `i` on: a compatible candidate
      replaces the current choice only with a strictly higher score. */
  function SelectFrom(cands: seq<Candidate>, i: nat, best: Option<nat>, score: real): (r: (Option<nat>, real))
    requires i <= |cands|
    requires BestSoFar(cands, i, best, score)
    ensures BestSoFar(cands, |cands|, r.0, r.1)
    decreases |cands| - i
  {
    if i == |cands| then (best, score)
    else
      var k := cands[i];
      if IsCompatible(k) && Score(k) > score then SelectFrom(cands, i + 1, Some(i), Score(k))
      else SelectFrom(cands, i + 1, best, score)
  }

  /** The chosen candidate and its score. */
  function Select(cands: seq<Candidate>): (r: (Option<nat>, real))
    ensures BestSoFar(cands, |cands|, r.0, r.1)
  {
    SelectFrom(cands, 0, None, 0.0)
  }

  /** A group is chosen exactly when some candidate is compatible; the
      chosen one is then the first of the best-scoring compatible ones, and
      its score clears the threshold. */
  lemma SelectIsFirstBest(cands: seq<Candidate>)
    ensures Select(cands).0.None? <==> forall k :: 0 <= k < |cands| ==> !IsCompatible(cands[k])
    ensures Select(cands).0.Some? ==>
              var b := Select(cands).0.value;
              && b < |cands| && IsCompatible(cands[b])
              && Select(cands).1 == Score(cands[b]) > AssignThreshold
              && (forall k :: 0 <= k < |cands| && IsCompatible(cands[k]) ==> Score(cands[k]) <= Score(cands[b]))
              && (forall k :: 0 <= k < b && IsCompatible(cands[k]) ==> Score(cands[k]) < Score(cands[b]))
  {
    var r := Select(cands);
    if r.0.Some? {
      CompatibleClearsThreshold(cands[r.0.value].ia, cands[r.0.value].j);
    }
  }

  /** `generar_embedding`: empty without a model or without text. */
  function Embedding(text: string, m: Models): (v: seq<real>)
    ensures !m.transformerLoaded || text == [] ==> v == []
  {
    if !m.transformerLoaded || text == [] then [] else m.embed(text)
  }

  /** The matcher cannot start: the cache is empty and the stored file is
      not (or no longer reads as) an official syllabus. */
  predicate CannotStart(course: Course) {
    course.cache == [] && !ExtractData(course.syllabusText).isSyllabus
  }

  /** The course as the matcher saves it before comparing: with an empty
      cache the syllabus is analysed again, its section cached and its
      credits taken when it states some; an empty embedding is computed. */
  function Prepare(course: Course, m: Models): (r: Course)
    requires !CannotStart(course)
    ensures course.cache != [] ==> r.cache == course.cache && r.credits == course.credits
    ensures course.cache == [] ==> r.cache == ExtractData(course.syllabusText).content
    ensures course.cache == [] && ExtractData(course.syllabusText).credits > 0 ==>
              r.credits == ExtractData(course.syllabusText).credits
    ensures course.cache == [] && ExtractData(course.syllabusText).credits == 0 ==> r.credits == course.credits
    ensures course.embedding.Some? && course.embedding.value != [] ==> r.embedding == course.embedding
    ensures course.embedding.None? || course.embedding.value == [] ==> r.embedding == Some(Embedding(r.cache, m))
    ensures r == course.(cache := r.cache, credits := r.credits, embedding := r.embedding)
  {
    var d := ExtractData(course.syllabusText);
    var text := if course.cache == [] then d.content else course.cache;
    var credits := if course.cache == [] && d.credits > 0 then d.credits else course.credits;
    var emb := if course.embedding.None? || course.embedding.value == [] then Some(Embedding(text, m))
               else course.embedding;
    course.(cache := text, credits := credits, embedding := emb)
  }

  /** The description of a group founded by a course. */
  function FounderDescription(code: string): (d: string)
    ensures code != [] ==> d == "Grupo base generado por " + code
    ensures code == [] ==> d == "Grupo base generado por sistema"
  {
    "Grupo base generado por " + (if code == [] then "sistema" else code)
  }

  /** `crear_grupo_nuevo`: a group named after the course, described by its
      code, for the course's school alone; the course joins it. */
  function CreateGroup(st: Store, c: CourseId): (r: Store)
    requires c in st.courses
    ensures |r.groups| == |st.groups| + 1 && r.groups[..|st.groups|] == st.groups
    ensures var g := r.groups[|st.groups|];
            && g.name == st.courses[c].name
            && g.description == FounderDescription(st.courses[c].code)
            && g.schools == {st.courses[c].school}
    ensures r.courses == st.courses[c := st.courses[c].(group := Some(|st.groups|))]
    ensures r.users == st.users && r.enrollments == st.enrollments && r.schools == st.schools
    ensures r.nextCourse == st.nextCourse && r.nextEnrollment == st.nextEnrollment
  {
    var course := st.courses[c];
    var g := Group(course.name, FounderDescription(course.code), {course.school});
    st.(groups := st.groups + [g], courses := st.courses[c := course.(group := Some(|st.groups|))])
  }

  /** A match: the course joins group `g`, and its school joins the
      group's schools. */
  function AssignGroup(st: Store, c: CourseId, g: GroupId): (r: Store)
    requires c in st.courses && g < |st.groups|
    ensures |r.groups| == |st.groups|
    ensures r.groups[g].schools == st.groups[g].schools + {st.courses[c].school}
    ensures r.groups[g].name == st.groups[g].name && r.groups[g].description == st.groups[g].description
    ensures forall h :: 0 <= h < |st.groups| && h != g ==> r.groups[h] == st.groups[h]
    ensures r.courses == st.courses[c := st.courses[c].(group := Some(g))]
    ensures r.users == st.users && r.enrollments == st.enrollments && r.schools == st.schools
    ensures r.nextCourse == st.nextCourse && r.nextEnrollment == st.nextEnrollment
  {
    var grp := st.groups[g];
    st.(groups := st.groups[g := grp.(schools := grp.schools + {st.courses[c].school})],
        courses := st.courses[c := st.courses[c].(group := Some(g))])
  }

  /** The result of a run: the new store, whether the course joined an
      existing group, and whether the comparison raised an error. */
  datatype Outcome = Outcome(store: Store, joined: bool, raised: bool)

  /** The store once the prepared course has been saved. */
  function PreparedStore(st: Store, c: CourseId, m: Models): (r: Store)
    requires c in st.courses && !CannotStart(st.courses[c])
    ensures r == st.(courses := st.courses[c := Prepare(st.courses[c], m)])
  {
    st.(courses := st.courses[c := Prepare(st.courses[c], m)])
  }

  /** The lemmas of the course being placed. */
  function CourseTokens(st: Store, c: CourseId, m: Models): set<string>
    requires c in st.courses
  {
    TokenSet(st.courses[c].cache, m.nlpLoaded, m.analyse)
  }

  /** Group `g` is one the course could join: it holds a course with the
      same credits, has a centroid, and passes the compatibility gate. */
  predicate CompatibleGroup(st: Store, c: CourseId, m: Models, g: GroupId)
    requires c in st.courses
  {
    && g < |st.groups|
    && HasMemberWithCredits(st, g, st.courses[c].credits)
    && HasCentroid(st, g)
    && IsCompatible(Evaluation(st, c, CourseTokens(st, c, m), m, g))
  }

  /** Group `g` is evaluated for the course: it holds a course with the
      same credits and has a centroid. */
  predicate Evaluated(st: Store, c: CourseId, g: GroupId)
    requires c in st.courses
  {
    g < |st.groups| && HasMemberWithCredits(st, g, st.courses[c].credits) && HasCentroid(st, g)
  }

  /** Some course of group `g` has an empty embedding (stored when it was
      embedded without the model, or from an empty text). */
  predicate HasEmptyMember(st: Store, g: GroupId) {
    exists x :: x in st.courses && st.courses[x].group == Some(g) && st.courses[x].embedding == Some([])
  }

  /** The comparison fails before it can choose: an evaluated group has a
      member with an empty embedding, so its centroid is the mean of vectors
      of different lengths or an empty vector, or the course's own embedding
      is empty; numpy or the cosine similarity then raises. */
  predicate ComparisonRaises(st: Store, c: CourseId)
    requires c in st.courses
  {
    exists g :: 0 <= g < |st.groups| && Evaluated(st, c, g) && (st.courses[c].embedding == Some([]) || HasEmptyMember(st, g))
  }

  /** The evaluated candidates of the comparison, in ascending group
      order. */
  function Candidates(st: Store, c: CourseId, m: Models): (r: seq<Candidate>)
    requires c in st.courses
  {
    Evaluate(st, c, CourseTokens(st, c, m), m, CandidatesFrom(st, st.courses[c].credits, 0))
  }

  /** The comparison stage, on a store where the prepared course is saved. */
  function Compare(st: Store, c: CourseId, m: Models): (r: Outcome)
    requires c in st.courses && m.transformerLoaded
    ensures r.raised <==> ComparisonRaises(st, c)
    ensures r.raised ==> r.store == st && !r.joined
  {
    if ComparisonRaises(st, c) then Outcome(st, false, true)
    else
      var cands := Candidates(st, c, m);
      var sel := Select(cands);
      if sel.0.Some? && sel.1 > AssignThreshold then
        var k := sel.0.value;
        assert k < |Kept(st, c)|;
        CandidateIsKeptGroup(st, c, m, k);
        assert Kept(st, c)[k] in Kept(st, c);
        Outcome(AssignGroup(st, c, cands[k].group), true, false)
      else Outcome(CreateGroup(st, c), false, false)
  }

  /** `procesar_y_agrupar_curso`. */
  function Process(st: Store, c: CourseId, m: Models): (r: Outcome)
    requires c in st.courses
    ensures CannotStart(st.courses[c]) ==> r == Outcome(st, false, false)
    ensures !m.transformerLoaded && !CannotStart(st.courses[c]) ==>
              !r.joined && !r.raised && |r.store.groups| == |st.groups| + 1
              && c in r.store.courses && r.store.courses[c].group == Some(|st.groups|)
    ensures r.joined ==> m.transformerLoaded && !r.raised && |r.store.groups| == |st.groups|
    ensures r.raised <==> !CannotStart(st.courses[c]) && m.transformerLoaded
                          && ComparisonRaises(PreparedStore(st, c, m), c)
    ensures r.raised ==> !CannotStart(st.courses[c]) && r.store == PreparedStore(st, c, m)
    ensures !CannotStart(st.courses[c]) && !r.raised ==> c in r.store.courses && r.store.courses[c].group.Some?
  {
    if CannotStart(st.courses[c]) then Outcome(st, false, false)
    else
      var st1 := PreparedStore(st, c, m);
      if !m.transformerLoaded then Outcome(CreateGroup(st1, c), false, false)
      else Compare(st1, c, m)
  }

  /** Without the embedding model a course with no embedding founds a
      group whose only member has an empty embedding; once the model is
      back, every later course of the same credits makes the comparison
      raise. */
  lemma FoundingWithoutModelLeavesEmptyMember(st: Store, c: CourseId, m: Models)
    requires c in st.courses && !CannotStart(st.courses[c]) && !m.transformerLoaded
    requires st.courses[c].embedding.None? || st.courses[c].embedding == Some([])
    ensures var r := Process(st, c, m).store;
            && HasEmptyMember(r, |st.groups|) && HasCentroid(r, |st.groups|)
            && HasMemberWithCredits(r, |st.groups|, r.courses[c].credits)
  {
    var r := Process(st, c, m).store;
    assert r.courses[c].embedding == Some([]) && r.courses[c].group == Some(|st.groups|);
  }

  /** The groups the course is compared with, in ascending order. */
  function Kept(st: Store, c: CourseId): (r: seq<GroupId>)
    requires c in st.courses
    ensures forall g: nat :: g in r <==> g < |st.groups| && HasMemberWithCredits(st, g, st.courses[c].credits)
                                         && HasCentroid(st, g)
    ensures forall i, k :: 0 <= i < k < |r| ==> r[i] < r[k]
  {
    WithCentroid(st, CandidatesFrom(st, st.courses[c].credits, 0))
  }

  /** Candidate `k` of the comparison is the evaluation of the `k`-th
      kept group. */
  lemma CandidateIsKeptGroup(st: Store, c: CourseId, m: Models, k: nat)
    requires c in st.courses
    requires k < |Kept(st, c)|
    ensures |Candidates(st, c, m)| == |Kept(st, c)|
    ensures Candidates(st, c, m)[k] == Evaluation(st, c, CourseTokens(st, c, m), m, Kept(st, c)[k])
    ensures IsCompatible(Candidates(st, c, m)[k]) <==> CompatibleGroup(st, c, m, Kept(st, c)[k])
  {
    assert Kept(st, c)[k] in Kept(st, c);
  }

  /** Every compatible group is among the candidates. */
  lemma CompatibleGroupIsCandidate(st: Store, c: CourseId, m: Models, g: GroupId)
    requires c in st.courses
    requires CompatibleGroup(st, c, m, g)
    ensures exists k :: 0 <= k < |Kept(st, c)| && Kept(st, c)[k] == g
  {
    assert g in Kept(st, c);
  }

  /** A compatible group makes some candidate compatible. */
  lemma CompatibleGroupGivesCandidate(st: Store, c: CourseId, m: Models, g: GroupId)
    requires c in st.courses
    requires CompatibleGroup(st, c, m, g)
    ensures exists k :: 0 <= k < |Candidates(st, c, m)| && IsCompatible(Candidates(st, c, m)[k])
  {
    CompatibleGroupIsCandidate(st, c, m, g);
    var k :| 0 <= k < |Kept(st, c)| && Kept(st, c)[k] == g;
    CandidateIsKeptGroup(st, c, m, k);
  }

  /** The comparison joins exactly when the selection picks a candidate. */
  lemma CompareJoinsIffSelected(st: Store, c: CourseId, m: Models)
    requires c in st.courses && m.transformerLoaded
    ensures Compare(st, c, m).joined <==> !ComparisonRaises(st, c) && Select(Candidates(st, c, m)).0.Some?
  {
    SelectIsFirstBest(Candidates(st, c, m));
  }

  /** The comparison joins a group exactly when it does not raise and some
      group is compatible. */
  lemma CompareJoinsIffCompatible(st: Store, c: CourseId, m: Models)
    requires c in st.courses && m.transformerLoaded
    ensures Compare(st, c, m).joined <==> !ComparisonRaises(st, c) && exists g :: CompatibleGroup(st, c, m, g)
  {
    var cands := Candidates(st, c, m);
    SelectIsFirstBest(cands);
    CompareJoinsIffSelected(st, c, m);
    if exists g :: CompatibleGroup(st, c, m, g) {
      var g :| CompatibleGroup(st, c, m, g);
      CompatibleGroupGivesCandidate(st, c, m, g);
    }
    if Select(cands).0.Some? {
      CandidateIsKeptGroup(st, c, m, Select(cands).0.value);
    }
  }

  /** The group the selection picks. */
  function Chosen(st: Store, c: CourseId, m: Models): (g: GroupId)
    requires c in st.courses
    requires Select(Candidates(st, c, m)).0.Some?
  {
    Candidates(st, c, m)[Select(Candidates(st, c, m)).0.value].group
  }

  /** A joining comparison puts the course in the chosen group. */
  lemma CompareJoinsChosen(st: Store, c: CourseId, m: Models)
    requires c in st.courses && m.transformerLoaded
    requires Compare(st, c, m).joined
    ensures Select(Candidates(st, c, m)).0.Some?
    ensures c in Compare(st, c, m).store.courses
    ensures Compare(st, c, m).store.courses[c].group == Some(Chosen(st, c, m))
  {
    CompareJoinsIffSelected(st, c, m);
  }

  /** The chosen group is compatible, has the highest hybrid score among
      the compatible ones, and strictly beats every compatible group of
      lower number: the first best group wins. */
  lemma ChosenIsFirstBest(st: Store, c: CourseId, m: Models, h: GroupId)
    requires c in st.courses
    requires Select(Candidates(st, c, m)).0.Some?
    requires CompatibleGroup(st, c, m, h)
    ensures CompatibleGroup(st, c, m, Chosen(st, c, m))
    ensures var tokens := CourseTokens(st, c, m);
            Score(Evaluation(st, c, tokens, m, h)) <= Score(Evaluation(st, c, tokens, m, Chosen(st, c, m)))
    ensures var tokens := CourseTokens(st, c, m);
            h < Chosen(st, c, m) ==>
              Score(Evaluation(st, c, tokens, m, h)) < Score(Evaluation(st, c, tokens, m, Chosen(st, c, m)))
  {
    var cands := Candidates(st, c, m);
    var kept := Kept(st, c);
    var b := Select(cands).0.value;
    assert b < |cands| && IsCompatible(cands[b]) by {
      SelectIsFirstBest(cands);
    }
    CandidateIsKeptGroup(st, c, m, b);
    assert Chosen(st, c, m) == kept[b];
    CompatibleGroupIsCandidate(st, c, m, h);
    var k :| 0 <= k < |kept| && kept[k] == h;
    CandidateIsKeptGroup(st, c, m, k);
    SelectedBeats(cands, k);
    if h < kept[b] {
      IncreasingIndexOrder(kept, k, b);
    }
  }

  /** In an increasing sequence a smaller element comes first. */
  lemma IncreasingIndexOrder(r: seq<nat>, i: nat, k: nat)
    requires forall x, y :: 0 <= x < y < |r| ==> r[x] < r[y]
    requires i < |r| && k < |r| && r[i] < r[k]
    ensures i < k
  {
  }

  /** The selected candidate scores at least as well as any compatible
      candidate, and strictly better than those before it. */
  lemma SelectedBeats(cands: seq<Candidate>, k: nat)
    requires Select(cands).0.Some? && k < |cands| && IsCompatible(cands[k])
    ensures var b := Select(cands).0.value;
            && b < |cands|
            && Score(cands[k]) <= Score(cands[b])
            && (k < b ==> Score(cands[k]) < Score(cands[b]))
  {
    SelectIsFirstBest(cands);
  }

  /** The course joins an existing group exactly when, after preparation,
      the comparison does not raise and some group is compatible with it;
      without the embedding model it never does. */
  lemma ProcessJoinsIffCompatible(st: Store, c: CourseId, m: Models)
    requires c in st.courses && !CannotStart(st.courses[c])
    ensures Process(st, c, m).joined <==>
              && m.transformerLoaded
              && !ComparisonRaises(PreparedStore(st, c, m), c)
              && exists g :: CompatibleGroup(PreparedStore(st, c, m), c, m, g)
  {
    if m.transformerLoaded {
      CompareJoinsIffCompatible(PreparedStore(st, c, m), c, m);
    }
  }

  /** `r` differs from `st` at most in course `c`'s matching fields (cache,
      credits, embedding, group) and in the groups, which it extends:
      existing groups keep their name and description and only gain
      schools. */
  predicate MatcherFrame(st: Store, r: Store, c: CourseId) {
    && r.users == st.users && r.schools == st.schools && r.enrollments == st.enrollments
    && r.nextCourse == st.nextCourse && r.nextEnrollment == st.nextEnrollment
    && r.courses.Keys == st.courses.Keys
    && (forall x :: x in st.courses && x != c ==> r.courses[x] == st.courses[x])
    && (c in st.courses ==>
          r.courses[c] == st.courses[c].(cache := r.courses[c].cache, credits := r.courses[c].credits,
                                         embedding := r.courses[c].embedding, group := r.courses[c].group))
    && |st.groups| <= |r.groups|
    && (forall h :: 0 <= h < |st.groups| ==>
          && r.groups[h].name == st.groups[h].name
          && r.groups[h].description == st.groups[h].description
          && st.groups[h].schools <= r.groups[h].schools)
  }

  lemma MatcherFrameTrans(a: Store, b: Store, d: Store, c: CourseId)
    requires MatcherFrame(a, b, c) && MatcherFrame(b, d, c)
    ensures MatcherFrame(a, d, c)
  {
  }

  /** Under the frame, enrolled roles carry over. */
  lemma FrameKeepsRoles(st: Store, r: Store, c: CourseId)
    requires MatcherFrame(st, r, c) && RolesEnrolled(st)
    ensures RolesEnrolled(r)
  {
    forall x | x in r.courses
      ensures IsEnrolled(r, r.courses[x].creator, x)
      ensures r.courses[x].pendingDelegate.Some? ==> IsEnrolled(r, r.courses[x].pendingDelegate.value, x)
    {
      assert r.courses[x].creator == st.courses[x].creator;
      assert r.courses[x].pendingDelegate == st.courses[x].pendingDelegate;
    }
  }

  /** Under the frame, the schema constraints carry over once the changed
      course's credits are in range and its group exists. */
  lemma FrameKeepsValid(st: Store, r: Store, c: CourseId)
    requires MatcherFrame(st, r, c) && Valid(st)
    requires c in r.courses ==> CreditsInRange(r.courses[c].credits)
    requires c in r.courses && r.courses[c].group.Some? ==> r.courses[c].group.value < |r.groups|
    ensures Valid(r)
  {
    FrameKeepsCoursesValid(st, r, c);
    assert UniqueEnrollments(r) by {
      assert r.enrollments == st.enrollments;
    }
  }

  lemma FrameKeepsCoursesValid(st: Store, r: Store, c: CourseId)
    requires MatcherFrame(st, r, c) && Valid(st)
    requires c in r.courses ==> CreditsInRange(r.courses[c].credits)
    requires c in r.courses && r.courses[c].group.Some? ==> r.courses[c].group.value < |r.groups|
    ensures forall x :: x in r.courses ==> x < r.nextCourse && ValidCourse(r, r.courses[x])
  {
    forall x | x in r.courses ensures x < r.nextCourse && ValidCourse(r, r.courses[x]) {
      assert ValidCourse(st, st.courses[x]);
    }
  }

  /** Replacing course `c` by a copy that differs only in its matching
      fields stays within the frame. */
  lemma CourseUpdateFrame(st: Store, c: CourseId, course: Course)
    requires c in st.courses
    requires course == st.courses[c].(cache := course.cache, credits := course.credits,
                                      embedding := course.embedding, group := course.group)
    ensures MatcherFrame(st, st.(courses := st.courses[c := course]), c)
  {
  }

  /** Preparing keeps the credits within 1..11: the syllabus states at
      most 9. */
  lemma PrepareKeepsCreditsInRange(course: Course, m: Models)
    requires !CannotStart(course) && CreditsInRange(course.credits)
    ensures CreditsInRange(Prepare(course, m).credits)
  {
    var d := ExtractData(course.syllabusText);
    ExtractDataWellShaped(course.syllabusText);
    assert d.credits <= 9;
  }

  lemma PreparedStoreFrame(st: Store, c: CourseId, m: Models)
    requires c in st.courses && !CannotStart(st.courses[c])
    ensures MatcherFrame(st, PreparedStore(st, c, m), c)
    ensures PreparedStore(st, c, m).groups == st.groups
    ensures CreditsInRange(st.courses[c].credits) ==>
              CreditsInRange(PreparedStore(st, c, m).courses[c].credits)
    ensures PreparedStore(st, c, m).courses[c].group == st.courses[c].group
  {
    var p := Prepare(st.courses[c], m);
    CourseUpdateFrame(st, c, p);
    if CreditsInRange(st.courses[c].credits) {
      PrepareKeepsCreditsInRange(st.courses[c], m);
    }
  }

  lemma CreateGroupFrame(st: Store, c: CourseId)
    requires c in st.courses
    ensures MatcherFrame(st, CreateGroup(st, c), c)
    ensures |CreateGroup(st, c).groups| == |st.groups| + 1
  {
    var r := CreateGroup(st, c);
    assert forall h :: 0 <= h < |st.groups| ==> r.groups[h] == r.groups[..|st.groups|][h];
  }

  lemma AssignGroupFrame(st: Store, c: CourseId, g: GroupId)
    requires c in st.courses && g < |st.groups|
    ensures MatcherFrame(st, AssignGroup(st, c, g), c)
  {
  }

  /** Saving the prepared course keeps the invariants: credits read from
      the syllabus are a single non-zero digit, so within 1..11. */
  lemma PreparedStoreKeepsInvariants(st: Store, c: CourseId, m: Models)
    requires Invariants(st) && c in st.courses && !CannotStart(st.courses[c])
    ensures Invariants(PreparedStore(st, c, m))
  {
    PreparedStoreKeepsValid(st, c, m);
    PreparedStoreKeepsRolesAndCover(st, c, m);
  }

  lemma PreparedStoreKeepsValid(st: Store, c: CourseId, m: Models)
    requires Valid(st) && c in st.courses && !CannotStart(st.courses[c])
    ensures Valid(PreparedStore(st, c, m))
  {
    PreparedStoreFrame(st, c, m);
    assert ValidCourse(st, st.courses[c]);
    FrameKeepsValid(st, PreparedStore(st, c, m), c);
  }

  lemma PreparedStoreKeepsRolesAndCover(st: Store, c: CourseId, m: Models)
    requires RolesEnrolled(st) && GroupsCoverSchools(st) && c in st.courses && !CannotStart(st.courses[c])
    ensures RolesEnrolled(PreparedStore(st, c, m)) && GroupsCoverSchools(PreparedStore(st, c, m))
  {
    var r := PreparedStore(st, c, m);
    PreparedStoreFrame(st, c, m);
    FrameKeepsRoles(st, r, c);
    SameGroupingKeepsCover(st, r);
  }

  /** With the same groups, and every course keeping its school and
      group, grouped courses stay covered. */
  lemma SameGroupingKeepsCover(st: Store, r: Store)
    requires GroupsCoverSchools(st) && r.groups == st.groups && r.courses.Keys == st.courses.Keys
    requires forall x :: x in st.courses ==>
               r.courses[x].school == st.courses[x].school && r.courses[x].group == st.courses[x].group
    ensures GroupsCoverSchools(r)
  {
    forall x | x in r.courses && r.courses[x].group.Some? && r.courses[x].group.value < |r.groups|
      ensures r.courses[x].school in r.groups[r.courses[x].group.value].schools
    {
      assert r.courses[x].school == st.courses[x].school && r.courses[x].group == st.courses[x].group;
    }
  }

  /** Founding a group keeps the invariants. */
  lemma CreateGroupKeepsInvariants(st: Store, c: CourseId)
    requires Invariants(st) && c in st.courses
    ensures Invariants(CreateGroup(st, c))
  {
    var r := CreateGroup(st, c);
    CreateGroupFrame(st, c);
    assert ValidCourse(st, st.courses[c]);
    FrameKeepsValid(st, r, c);
    FrameKeepsRoles(st, r, c);
    assert GroupsCoverSchools(r) by {
      forall x | x in r.courses && r.courses[x].group.Some? && r.courses[x].group.value < |r.groups|
        ensures r.courses[x].school in r.groups[r.courses[x].group.value].schools
      {
        if x != c {
          var g := st.courses[x].group.value;
          assert ValidCourse(st, st.courses[x]);
          assert r.groups[g] == r.groups[..|st.groups|][g];
        }
      }
    }
  }

  /** Joining an existing group keeps the invariants. */
  lemma AssignGroupKeepsInvariants(st: Store, c: CourseId, g: GroupId)
    requires Invariants(st) && c in st.courses && g < |st.groups|
    ensures Invariants(AssignGroup(st, c, g))
  {
    var r := AssignGroup(st, c, g);
    AssignGroupFrame(st, c, g);
    assert ValidCourse(st, st.courses[c]);
    FrameKeepsValid(st, r, c);
    FrameKeepsRoles(st, r, c);
    assert GroupsCoverSchools(r) by {
      forall x | x in r.courses && r.courses[x].group.Some? && r.courses[x].group.value < |r.groups|
        ensures r.courses[x].school in r.groups[r.courses[x].group.value].schools
      {
        assert r.courses[x].school == st.courses[x].school;
      }
    }
  }

  /** The group a run of the matcher decides, and the store after it, in
      terms of the three steps: the comparison raised and only the prepared
      course is saved, or a group is founded, or the chosen one joined. */
  lemma ProcessSteps(st: Store, c: CourseId, m: Models)
    requires c in st.courses && !CannotStart(st.courses[c])
    ensures var st1 := PreparedStore(st, c, m);
            || (Process(st, c, m).raised && Process(st, c, m).store == st1)
            || Process(st, c, m).store == CreateGroup(st1, c)
            || (m.transformerLoaded && Select(Candidates(st1, c, m)).0.Some?
                && Chosen(st1, c, m) < |st1.groups|
                && Process(st, c, m).store == AssignGroup(st1, c, Chosen(st1, c, m)))
  {
    var st1 := PreparedStore(st, c, m);
    if m.transformerLoaded && !ComparisonRaises(st1, c) {
      var sel := Select(Candidates(st1, c, m));
      if sel.0.Some? && sel.1 > AssignThreshold {
        CandidateIsKeptGroup(st1, c, m, sel.0.value);
      }
    }
  }

  /** A run of the matcher keeps the schema constraints, the enrolled
      roles, and every grouped course's school among its group's schools. */
  lemma ProcessKeepsInvariants(st: Store, c: CourseId, m: Models)
    requires Invariants(st) && c in st.courses
    ensures Invariants(Process(st, c, m).store)
  {
    if !CannotStart(st.courses[c]) {
      var st1 := PreparedStore(st, c, m);
      PreparedStoreKeepsInvariants(st, c, m);
      ProcessSteps(st, c, m);
      if Process(st, c, m).store == st1 {
      } else if Process(st, c, m).store == CreateGroup(st1, c) {
        CreateGroupKeepsInvariants(st1, c);
      } else {
        AssignGroupKeepsInvariants(st1, c, Chosen(st1, c, m));
      }
    }
  }

  /** A run of the matcher touches nothing but the course's cache, credits,
      embedding and group, and the groups: users, schools, enrollments and
      every other course stay, existing groups keep their name and
      description and only gain schools, and at most one group is added. */
  lemma ProcessFrame(st: Store, c: CourseId, m: Models)
    requires c in st.courses
    ensures MatcherFrame(st, Process(st, c, m).store, c)
    ensures |Process(st, c, m).store.groups| <= |st.groups| + 1
  {
    if !CannotStart(st.courses[c]) {
      var st1 := PreparedStore(st, c, m);
      PreparedStoreFrame(st, c, m);
      ProcessSteps(st, c, m);
      if Process(st, c, m).store == st1 {
      } else if Process(st, c, m).store == CreateGroup(st1, c) {
        CreateGroupFrame(st1, c);
      } else {
        AssignGroupFrame(st1, c, Chosen(st1, c, m));
      }
      MatcherFrameTrans(st, st1, Process(st, c, m).store, c);
    }
  }
}
