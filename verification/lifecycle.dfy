/** A proposal's first steps together: `create_course_view` saves the
    course, and the matcher then analyses and groups it. The view already
    stores the credits the matcher would read from the syllabus, so the
    matcher never changes them and the credit cap the view enforced still
    holds afterwards. */
module Lifecycle {
  import opened Base
  import opened Domain
  import opened Extraction
  import opened Forms
  import opened Views
  import opened Matching

  /** The matcher would not change the course's credits: either the cache
      is filled (the syllabus is not read again), or the syllabus states
      no credits, or it states the ones the course has. */
  predicate CreditsSettled(course: Course) {
    course.cache == [] && ExtractData(course.syllabusText).credits > 0 ==>
      course.credits == ExtractData(course.syllabusText).credits
  }

  /** Preparing a settled course keeps its credits, and it stays
      settled. */
  lemma PrepareKeepsSettledCredits(course: Course, m: Models)
    requires !CannotStart(course) && CreditsSettled(course)
    ensures Prepare(course, m).credits == course.credits
    ensures CreditsSettled(Prepare(course, m))
  {
  }

  /** A course saved by the proposal view is settled: its credits are the
      ones its syllabus states whenever it states some. */
  lemma ProposedCourseSettled(st: Store, u: UserId, input: FormInput)
    requires u in st.users && st.users[u].school.Some? && FormValid(input)
    ensures CreditsSettled(ProposedCourse(st, u, input, ExtractData(input.syllabus.value.text)))
  {
    var d := ExtractData(input.syllabus.value.text);
    var course := ProposedCourse(st, u, input, d);
    assert course.syllabusText == input.syllabus.value.text;
    assert course.credits == EffectiveCredits(d, input.credits);
  }

  /** Whichever way the matcher groups the prepared course, the course
      keeps the credits it was prepared with. */
  lemma StepsKeepOwnCredits(st: Store, c: CourseId, m: Models)
    requires c in st.courses && !CannotStart(st.courses[c])
    ensures Process(st, c, m).store.courses[c].credits == PreparedStore(st, c, m).courses[c].credits
  {
    var st1 := PreparedStore(st, c, m);
    ProcessSteps(st, c, m);
    var r := Process(st, c, m).store;
    if r == st1 {
    } else if r == CreateGroup(st1, c) {
      assert r.courses[c] == st1.courses[c].(group := Some(|st1.groups|));
    } else {
      assert r.courses[c] == st1.courses[c].(group := Some(Chosen(st1, c, m)));
    }
  }

  /** A run of the matcher on a settled course changes no course's
      credits. */
  lemma ProcessKeepsCredits(st: Store, c: CourseId, m: Models)
    requires c in st.courses && CreditsSettled(st.courses[c])
    ensures var r := Process(st, c, m).store;
            && r.courses.Keys == st.courses.Keys
            && forall x :: x in st.courses ==> r.courses[x].credits == st.courses[x].credits
  {
    ProcessFrame(st, c, m);
    if !CannotStart(st.courses[c]) {
      ProcessKeepsOwnCredits(st, c, m);
    }
  }

  /** The matched course itself keeps its credits. */
  lemma ProcessKeepsOwnCredits(st: Store, c: CourseId, m: Models)
    requires c in st.courses && CreditsSettled(st.courses[c]) && !CannotStart(st.courses[c])
    ensures Process(st, c, m).store.courses[c].credits == st.courses[c].credits
  {
    PrepareKeepsSettledCredits(st.courses[c], m);
    PreparedStoreFrame(st, c, m);
    StepsKeepOwnCredits(st, c, m);
  }

  /** With the same enrollments and the same credits per course, every
      student's totals are the same. */
  lemma SameCreditsSameTotals(st: Store, r: Store, u: UserId)
    requires r.enrollments == st.enrollments && r.courses.Keys == st.courses.Keys
    requires forall x :: x in st.courses ==> r.courses[x].credits == st.courses[x].credits
    ensures CreditSum(r, u) == CreditSum(st, u) && EnrollmentCount(r, u) == EnrollmentCount(st, u)
  {
    assert EnrollmentsOf(r, u) == EnrollmentsOf(st, u);
    forall e | e in EnrollmentsOf(st, u) ensures Weights(r)(e) == Weights(st)(e) {
      assert EnrollmentCredits(r, e) == EnrollmentCredits(st, e);
    }
    SumOverSameWeights(EnrollmentsOf(st, u), Weights(r), Weights(st));
  }

  /** A run of the matcher on a settled course keeps every student within
      11 credits and 2 courses. */
  lemma ProcessKeepsLimits(st: Store, c: CourseId, m: Models)
    requires c in st.courses && CreditsSettled(st.courses[c]) && WithinLimits(st)
    ensures WithinLimits(Process(st, c, m).store)
  {
    var r := Process(st, c, m).store;
    ProcessFrame(st, c, m);
    ProcessKeepsCredits(st, c, m);
    forall u | u in r.users ensures CreditSum(r, u) <= CreditCap && EnrollmentCount(r, u) <= CourseCap {
      SameCreditsSameTotals(st, r, u);
    }
  }

  /** Proposing a course and then matching it keeps the invariants and the
      limits: the credit cap the view checked is the one that holds once
      the course is grouped. */
  lemma ProposalThenMatchingKeepsLimits(st: Store, u: UserId, input: FormInput, m: Models)
    requires Invariants(st) && WithinLimits(st) && u in st.users && input.syllabus.Some?
    requires CreateCourse(st, u, input, ExtractData(input.syllabus.value.text)).reply.Created?
    ensures var s := CreateCourse(st, u, input, ExtractData(input.syllabus.value.text)).store;
            && st.nextCourse in s.courses
            && Invariants(Process(s, st.nextCourse, m).store)
            && WithinLimits(Process(s, st.nextCourse, m).store)
  {
    var d := ExtractData(input.syllabus.value.text);
    var s := CreateCourse(st, u, input, d).store;
    ExtractDataWellShaped(input.syllabus.value.text);
    CreateCourseEffects(st, u, input, d);
    CreateCourseKeepsInvariants(st, u, input, d);
    CreateCourseKeepsLimits(st, u, input, d);
    assert s.courses[st.nextCourse] == ProposedCourse(st, u, input, d);
    ProposedCourseSettled(st, u, input);
    ProcessKeepsInvariants(s, st.nextCourse, m);
    ProcessKeepsLimits(s, st.nextCourse, m);
  }
}
