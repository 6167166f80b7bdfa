/** The state-changing views of `apps/frontend/views.py`: proposing,
    joining and leaving a course, handing the delegate role over, and
    attaching or removing an enrollment's document. Each view is a
    transition of the store together with the reply the student sees;
    a refused request leaves the store as it was. */
module Views {
  import opened Base
  import opened Text
  import opened Domain
  import opened Extraction
  import opened Forms

  /** What a view answers. */
  datatype Reply =
    | NotFound                      // `get_object_or_404`
    | AlreadyEnrolled
    | EquivalentTaken               // enrolled in a course of the same group
    | CreditLimit(current: nat)     // the cap of 11 credits, with the current sum
    | CourseLimit(current: nat)     // the cap of 2 courses, with the current count
    | Joined
    | FormInvalid
    | FileError(message: string)    // the PDF is damaged or illegible
    | NotSyllabus(message: string)  // the PDF is not an official syllabus
    | Duplicate                     // same syllabus content by the same student
    | NoSchool                      // saving a course without school fails
    | Created(course: CourseId)
    | CourseDeleted                 // the delegate was the only member
    | DelegateCannotLeave
    | Left
    | NotEnrolled
    | NotDelegate
    | NomineeNotEnrolled
    | Nominated
    | NoPendingRequest
    | Promoted
    | Declined
    | Ignored
    | NotOwner
    | DocumentSaved
    | DocumentRemoved
    | Unchanged

  datatype Response = Response(reply: Reply, store: Store)

  /** A new enrollment of `u` in `c`, without document. */
  function AddEnrollment(st: Store, u: UserId, c: CourseId): (r: Store)
    ensures r.enrollments == st.enrollments[st.nextEnrollment := Enrollment(u, c, false)]
    ensures r.nextEnrollment == st.nextEnrollment + 1
    ensures r == st.(enrollments := r.enrollments, nextEnrollment := r.nextEnrollment)
  {
    st.(enrollments := st.enrollments[st.nextEnrollment := Enrollment(u, c, false)],
        nextEnrollment := st.nextEnrollment + 1)
  }

  /** The enrollments of `st` except those of `u` in `c`. */
  function DropEnrollment(st: Store, u: UserId, c: CourseId): (r: Store)
    ensures forall e :: e in r.enrollments <==>
              e in st.enrollments && !(st.enrollments[e].user == u && st.enrollments[e].course == c)
    ensures forall e :: e in r.enrollments ==> r.enrollments[e] == st.enrollments[e]
    ensures r == st.(enrollments := r.enrollments)
  {
    st.(enrollments := map e | e in st.enrollments && !(st.enrollments[e].user == u && st.enrollments[e].course == c)
                               :: st.enrollments[e])
  }

  /** Course `c` deleted, and with it its enrollments (`on_delete=CASCADE`). */
  function DeleteCourse(st: Store, c: CourseId): (r: Store)
    ensures r.courses == st.courses - {c}
    ensures forall e :: e in r.enrollments <==> e in st.enrollments && st.enrollments[e].course != c
    ensures forall e :: e in r.enrollments ==> r.enrollments[e] == st.enrollments[e]
    ensures r == st.(courses := r.courses, enrollments := r.enrollments)
  {
    st.(courses := st.courses - {c},
        enrollments := map e | e in st.enrollments && st.enrollments[e].course != c :: st.enrollments[e])
  }

  /** `course` saved under the next course number. */
  function AddCourse(st: Store, course: Course): (r: Store)
    ensures r.courses == st.courses[st.nextCourse := course]
    ensures r.nextCourse == st.nextCourse + 1
    ensures r == st.(courses := r.courses, nextCourse := r.nextCourse)
  {
    st.(courses := st.courses[st.nextCourse := course], nextCourse := st.nextCourse + 1)
  }

  /** Enrollment `e` marked as holding a document or not. */
  function SetDocument(st: Store, e: EnrollmentId, has: bool): (r: Store)
    requires e in st.enrollments
    ensures r == st.(enrollments := st.enrollments[e := st.enrollments[e].(hasDocument := has)])
  {
    st.(enrollments := st.enrollments[e := st.enrollments[e].(hasDocument := has)])
  }

  /** Course `c` replaced by `course`. */
  function SetCourse(st: Store, c: CourseId, course: Course): (r: Store)
    ensures r == st.(courses := st.courses[c := course])
  {
    st.(courses := st.courses[c := course])
  }

  /** The user holds an enrollment in some course of `c`'s group. */
  predicate HasEquivalent(st: Store, u: UserId, c: CourseId)
    requires c in st.courses
  {
    && st.courses[c].group.Some?
    && exists e :: && e in st.enrollments && st.enrollments[e].user == u
                   && st.enrollments[e].course in st.courses
                   && st.courses[st.enrollments[e].course].group == st.courses[c].group
  }

  /** The two caps, checked before a student takes `credits` more credits
      in one more course: the credit cap first, then the course cap. */
  function CheckLimits(st: Store, u: UserId, credits: nat): (r: Option<Reply>)
    ensures r.None? <==> CreditSum(st, u) + credits <= CreditCap && EnrollmentCount(st, u) < CourseCap
    ensures r.Some? ==> r.value == CreditLimit(CreditSum(st, u)) || r.value == CourseLimit(EnrollmentCount(st, u))
    ensures r == Some(CourseLimit(EnrollmentCount(st, u))) ==> CreditSum(st, u) + credits <= CreditCap
  {
    if CreditSum(st, u) + credits > CreditCap then Some(CreditLimit(CreditSum(st, u)))
    else if EnrollmentCount(st, u) >= CourseCap then Some(CourseLimit(EnrollmentCount(st, u)))
    else None
  }

  /** `join_course_view`: a missing course is not found; then a student
      already enrolled, or enrolled in a course of the same group, is
      refused; then the caps apply; otherwise the student is enrolled. */
  function Join(st: Store, u: UserId, c: CourseId): (r: Response)
    ensures r.reply != Joined ==> r.store == st
    ensures r.reply == Joined <==>
              && c in st.courses
              && !IsEnrolled(st, u, c)
              && !HasEquivalent(st, u, c)
              && CreditSum(st, u) + st.courses[c].credits <= CreditCap
              && EnrollmentCount(st, u) < CourseCap
    ensures r.reply == Joined ==> r.store == AddEnrollment(st, u, c)
    ensures c !in st.courses <==> r.reply == NotFound
    ensures r.reply == EquivalentTaken ==> c in st.courses && !IsEnrolled(st, u, c)
    ensures r.reply.CreditLimit? || r.reply.CourseLimit? ==>
              c in st.courses && !IsEnrolled(st, u, c) && !HasEquivalent(st, u, c)
  {
    if c !in st.courses then Response(NotFound, st)
    else if IsEnrolled(st, u, c) then Response(AlreadyEnrolled, st)
    else if HasEquivalent(st, u, c) then Response(EquivalentTaken, st)
    else
      var limits := CheckLimits(st, u, st.courses[c].credits);
      if limits.Some? then Response(limits.value, st)
      else Response(Joined, AddEnrollment(st, u, c))
  }

  /** Some course of `u` caches exactly `content`. */
  predicate DuplicateContent(st: Store, u: UserId, content: string) {
    exists x :: x in st.courses && st.courses[x].creator == u && st.courses[x].cache == content
  }

  /** The credits a new course gets: those the syllabus states, when it
      states some, else those the student declared. */
  function EffectiveCredits(d: Extraction, declared: int): (n: nat)
    requires declared >= 0
    ensures d.credits > 0 ==> n == d.credits
    ensures d.credits == 0 ==> n == declared
  {
    if d.credits > 0 then d.credits else declared as nat
  }

  /** `create_course_view` on a submitted form, given `d`, what the
      extraction pipeline reports for the uploaded file (the view calls it
      as `extraer_datos_inteligente`; `Extraction.ExtractData` models it).
      The checks run in order: the form, the readability of the PDF, the
      syllabus test, a duplicate syllabus of the same student (only when
      the thematic content is non-empty), the credit cap with the
      effective credits, the course cap, and finally saving, which fails
      without a school. On success the course and its delegate's
      enrollment are added. */
  function CreateCourse(st: Store, u: UserId, input: FormInput, d: Extraction): (r: Response)
    requires u in st.users
    ensures !r.reply.Created? ==> r.store == st
    ensures !FormValid(input) <==> r.reply == FormInvalid
    ensures r.reply.FileError? <==> FormValid(input) && !d.valid
    ensures r.reply.FileError? ==> r.reply.message == Message(d.rejection)
    ensures r.reply.NotSyllabus? <==> FormValid(input) && d.valid && !d.isSyllabus
    ensures r.reply.NotSyllabus? ==> r.reply.message == Message(d.rejection)
    ensures r.reply == Duplicate <==>
              FormValid(input) && d.valid && d.isSyllabus && d.content != [] && DuplicateContent(st, u, d.content)
    ensures r.reply.Created? <==>
              && FormValid(input) && d.valid && d.isSyllabus
              && (d.content == [] || !DuplicateContent(st, u, d.content))
              && CreditSum(st, u) + EffectiveCredits(d, input.credits) <= CreditCap
              && EnrollmentCount(st, u) < CourseCap
              && st.users[u].school.Some?
    ensures r.reply.Created? ==>
              && r.reply.course == st.nextCourse
              && r.store == AddEnrollment(AddCourse(st, ProposedCourse(st, u, input, d)), u, st.nextCourse)
  {
    if !FormValid(input) then Response(FormInvalid, st)
    else CreateFromValidForm(st, u, input, d)
  }

  /** The steps of `create_course_view` after the form was accepted. */
  function CreateFromValidForm(st: Store, u: UserId, input: FormInput, d: Extraction): (r: Response)
    requires u in st.users && input.syllabus.Some? && input.credits >= 0
    ensures !r.reply.Created? ==> r.store == st
    ensures r.reply != FormInvalid
    ensures r.reply.FileError? <==> !d.valid
    ensures r.reply.FileError? ==> r.reply.message == Message(d.rejection)
    ensures r.reply.NotSyllabus? <==> d.valid && !d.isSyllabus
    ensures r.reply.NotSyllabus? ==> r.reply.message == Message(d.rejection)
    ensures r.reply == Duplicate <==> d.valid && d.isSyllabus && d.content != [] && DuplicateContent(st, u, d.content)
    ensures r.reply.Created? <==>
              && d.valid && d.isSyllabus
              && (d.content == [] || !DuplicateContent(st, u, d.content))
              && CreditSum(st, u) + EffectiveCredits(d, input.credits) <= CreditCap
              && EnrollmentCount(st, u) < CourseCap
              && st.users[u].school.Some?
    ensures r.reply.Created? ==>
              && r.reply.course == st.nextCourse
              && r.store == AddEnrollment(AddCourse(st, ProposedCourse(st, u, input, d)), u, st.nextCourse)
  {
    if !d.valid then Response(FileError(Message(d.rejection)), st)
    else if !d.isSyllabus then Response(NotSyllabus(Message(d.rejection)), st)
    else if d.content != [] && DuplicateContent(st, u, d.content) then Response(Duplicate, st)
    else
      var credits := EffectiveCredits(d, input.credits);
      var limits := CheckLimits(st, u, credits);
      if limits.Some? then Response(limits.value, st)
      else if st.users[u].school.None? then Response(NoSchool, st)
      else Response(Created(st.nextCourse), AddEnrollment(AddCourse(st, ProposedCourse(st, u, input, d)), u, st.nextCourse))
  }

  /** `leave_course_view` (the second definition, which is the one the URL
      resolves to). The delegate leaves only by deleting a course they are
      the only member of, and is refused otherwise. Anyone else loses a
      pending nomination and then their enrollment, if they have one. */
  function Leave(st: Store, u: UserId, c: CourseId): (r: Response)
    ensures c !in st.courses <==> r.reply == NotFound
    ensures r.reply == NotFound || r.reply == DelegateCannotLeave ==> r.store == st
    ensures r.reply == CourseDeleted <==>
              c in st.courses && st.courses[c].creator == u && |MembersOf(st, c)| == 1
    ensures r.reply == CourseDeleted ==> r.store == DeleteCourse(st, c)
    ensures r.reply == DelegateCannotLeave <==>
              c in st.courses && st.courses[c].creator == u && |MembersOf(st, c)| != 1
    ensures r.reply == Left <==> c in st.courses && st.courses[c].creator != u && IsEnrolled(st, u, c)
    ensures r.reply == Left || r.reply == NotEnrolled ==>
              var cleared := if st.courses[c].pendingDelegate == Some(u)
                             then SetCourse(st, c, st.courses[c].(pendingDelegate := None)) else st;
              r.store == DropEnrollment(cleared, u, c)
  {
    if c !in st.courses then Response(NotFound, st)
    else
      var course := st.courses[c];
      if course.creator == u then
        if |MembersOf(st, c)| == 1 then Response(CourseDeleted, DeleteCourse(st, c))
        else Response(DelegateCannotLeave, st)
      else
        var st1 := if course.pendingDelegate == Some(u)
                   then SetCourse(st, c, course.(pendingDelegate := None)) else st;
        Response(if IsEnrolled(st, u, c) then Left else NotEnrolled, DropEnrollment(st1, u, c))
  }

  /** `nominate_delegado_view` on a submitted nominee: only the delegate
      may nominate, and only an enrolled student. */
  function Nominate(st: Store, u: UserId, c: CourseId, nominee: UserId): (r: Response)
    ensures r.reply != Nominated ==> r.store == st
    ensures r.reply == Nominated <==>
              c in st.courses && st.courses[c].creator == u && nominee in st.users && IsEnrolled(st, nominee, c)
    ensures r.reply == Nominated ==>
              r.store == SetCourse(st, c, st.courses[c].(pendingDelegate := Some(nominee)))
    ensures r.reply == NotDelegate <==> c in st.courses && st.courses[c].creator != u
  {
    if c !in st.courses then Response(NotFound, st)
    else if st.courses[c].creator != u then Response(NotDelegate, st)
    else if nominee !in st.users then Response(NotFound, st)
    else if !IsEnrolled(st, nominee, c) then Response(NomineeNotEnrolled, st)
    else Response(Nominated, SetCourse(st, c, st.courses[c].(pendingDelegate := Some(nominee))))
  }

  /** The students a delegate may choose from: the course's members other
      than the delegate. */
  function NomineeChoices(st: Store, c: CourseId, u: UserId): (r: set<EnrollmentId>)
    ensures forall e :: e in r <==> e in MembersOf(st, c) && st.enrollments[e].user != u
  {
    set e | e in MembersOf(st, c) && st.enrollments[e].user != u
  }

  /** `respond_nomination_view`: only the pending nominee may answer;
      "aceptar" makes them the delegate, "rechazar" withdraws the
      nomination, and any other answer changes nothing. */
  function Respond(st: Store, u: UserId, c: CourseId, action: string): (r: Response)
    ensures c !in st.courses <==> r.reply == NotFound
    ensures r.reply == NoPendingRequest <==> c in st.courses && st.courses[c].pendingDelegate != Some(u)
    ensures r.reply != Promoted && r.reply != Declined ==> r.store == st
    ensures r.reply == Promoted <==>
              c in st.courses && st.courses[c].pendingDelegate == Some(u) && action == "aceptar"
    ensures r.reply == Promoted ==>
              r.store == SetCourse(st, c, st.courses[c].(creator := u, pendingDelegate := None))
    ensures r.reply == Declined <==>
              c in st.courses && st.courses[c].pendingDelegate == Some(u) && action == "rechazar"
    ensures r.reply == Declined ==>
              r.store == SetCourse(st, c, st.courses[c].(pendingDelegate := None))
  {
    if c !in st.courses then Response(NotFound, st)
    else if st.courses[c].pendingDelegate != Some(u) then Response(NoPendingRequest, st)
    else if action == "aceptar" then
      Response(Promoted, SetCourse(st, c, st.courses[c].(creator := u, pendingDelegate := None)))
    else if action == "rechazar" then
      Response(Declined, SetCourse(st, c, st.courses[c].(pendingDelegate := None)))
    else Response(Ignored, st)
  }

  /** `upload_document_view`. `submitted` is `None` unless a valid form
      was posted, and then tells whether the saved enrollment holds a
      document. Only the enrollment's own student may change it. */
  function UploadDocument(st: Store, u: UserId, e: EnrollmentId, submitted: Option<bool>): (r: Response)
    ensures e !in st.enrollments <==> r.reply == NotFound
    ensures r.reply == NotOwner <==> e in st.enrollments && st.enrollments[e].user != u
    ensures r.reply != DocumentSaved ==> r.store == st
    ensures r.reply == DocumentSaved <==> e in st.enrollments && st.enrollments[e].user == u && submitted.Some?
    ensures r.reply == DocumentSaved ==> r.store == SetDocument(st, e, submitted.value)
  {
    if e !in st.enrollments then Response(NotFound, st)
    else if st.enrollments[e].user != u then Response(NotOwner, st)
    else if submitted.None? then Response(Unchanged, st)
    else Response(DocumentSaved, SetDocument(st, e, submitted.value))
  }

  /** `delete_document_view`: only the enrollment's own student may remove
      its document, and removing is a no-op when there is none. */
  function DeleteDocument(st: Store, u: UserId, e: EnrollmentId): (r: Response)
    ensures e !in st.enrollments <==> r.reply == NotFound
    ensures r.reply == NotOwner <==> e in st.enrollments && st.enrollments[e].user != u
    ensures r.reply != DocumentRemoved ==> r.store == st
    ensures r.reply == DocumentRemoved <==>
              e in st.enrollments && st.enrollments[e].user == u && st.enrollments[e].hasDocument
    ensures r.reply == DocumentRemoved ==> r.store == SetDocument(st, e, false)
  {
    if e !in st.enrollments then Response(NotFound, st)
    else if st.enrollments[e].user != u then Response(NotOwner, st)
    else if !st.enrollments[e].hasDocument then Response(Unchanged, st)
    else Response(DocumentRemoved, SetDocument(st, e, false))
  }

  // ---------------------------------------------------------------------
  // Credit sums and counts across a transition

  /** Enrollment numbers are below the next one to hand out, and every
      enrollment's course exists. */
  predicate EnrollmentsLinked(st: Store) {
    forall e :: e in st.enrollments ==> e < st.nextEnrollment && st.enrollments[e].course in st.courses
  }

  /** A new enrollment joins its student's enrollments only. */
  lemma AddEnrollmentSets(st: Store, u: UserId, c: CourseId, v: UserId)
    requires EnrollmentsLinked(st)
    ensures st.nextEnrollment !in EnrollmentsOf(st, v)
    ensures EnrollmentsOf(AddEnrollment(st, u, c), v)
            == EnrollmentsOf(st, v) + (if v == u then {st.nextEnrollment} else {})
  {
  }

  /** A new enrollment weighs its course's credits and leaves the others'
      weights alone. */
  lemma AddEnrollmentWeights(st: Store, u: UserId, c: CourseId)
    requires EnrollmentsLinked(st) && c in st.courses
    ensures Weights(AddEnrollment(st, u, c))(st.nextEnrollment) == st.courses[c].credits
    ensures forall e :: e in st.enrollments ==> Weights(AddEnrollment(st, u, c))(e) == Weights(st)(e)
  {
    var r := AddEnrollment(st, u, c);
    forall e | e in st.enrollments ensures Weights(r)(e) == Weights(st)(e) {
      assert EnrollmentCredits(r, e) == EnrollmentCredits(st, e) by {
        assert r.enrollments[e] == st.enrollments[e];
      }
    }
    assert EnrollmentCredits(r, st.nextEnrollment) == st.courses[c].credits;
  }

  /** A new enrollment adds its course's credits and one course to its
      student's totals, and nothing to anybody else's. */
  lemma AddEnrollmentTotals(st: Store, u: UserId, c: CourseId, v: UserId)
    requires EnrollmentsLinked(st) && c in st.courses
    ensures var r := AddEnrollment(st, u, c);
            && CreditSum(r, v) == CreditSum(st, v) + (if v == u then st.courses[c].credits else 0)
            && EnrollmentCount(r, v) == EnrollmentCount(st, v) + (if v == u then 1 else 0)
  {
    AddEnrollmentCreditTotal(st, u, c, v);
    AddEnrollmentCountTotal(st, u, c, v);
  }

  lemma AddEnrollmentCreditTotal(st: Store, u: UserId, c: CourseId, v: UserId)
    requires EnrollmentsLinked(st) && c in st.courses
    ensures CreditSum(AddEnrollment(st, u, c), v) == CreditSum(st, v) + (if v == u then st.courses[c].credits else 0)
  {
    var r := AddEnrollment(st, u, c);
    var n := st.nextEnrollment;
    var before := EnrollmentsOf(st, v);
    AddEnrollmentSets(st, u, c, v);
    AddEnrollmentWeights(st, u, c);
    SumOverSameWeights(before, Weights(r), Weights(st));
    if v == u {
      assert EnrollmentsOf(r, v) == before + {n};
      SumOverAdd(before, n, Weights(r));
    } else {
      assert EnrollmentsOf(r, v) == before;
    }
  }

  lemma AddEnrollmentCountTotal(st: Store, u: UserId, c: CourseId, v: UserId)
    requires EnrollmentsLinked(st)
    ensures EnrollmentCount(AddEnrollment(st, u, c), v) == EnrollmentCount(st, v) + (if v == u then 1 else 0)
  {
    AddEnrollmentSets(st, u, c, v);
  }

  /** Totals of the same enrollments with the same credits are equal. */
  lemma SameEnrollmentsSameTotals(st: Store, r: Store, v: UserId)
    requires EnrollmentsOf(r, v) == EnrollmentsOf(st, v)
    requires forall e :: e in EnrollmentsOf(st, v) ==> EnrollmentCredits(r, e) == EnrollmentCredits(st, e)
    ensures CreditSum(r, v) == CreditSum(st, v) && EnrollmentCount(r, v) == EnrollmentCount(st, v)
  {
    SumOverSameWeights(EnrollmentsOf(st, v), Weights(r), Weights(st));
  }

  /** Fewer enrollments with the same credits never weigh more. */
  lemma FewerEnrollmentsLowerTotals(st: Store, r: Store, v: UserId)
    requires EnrollmentsOf(r, v) <= EnrollmentsOf(st, v)
    requires forall e :: e in EnrollmentsOf(r, v) ==> EnrollmentCredits(r, e) == EnrollmentCredits(st, e)
    ensures CreditSum(r, v) <= CreditSum(st, v) && EnrollmentCount(r, v) <= EnrollmentCount(st, v)
  {
    SumOverSameWeights(EnrollmentsOf(r, v), Weights(r), Weights(st));
    SumOverSubset(EnrollmentsOf(r, v), EnrollmentsOf(st, v), Weights(st));
    SubsetCard(EnrollmentsOf(r, v), EnrollmentsOf(st, v));
  }

  // ---------------------------------------------------------------------
  // Join

  /** A successful join enrolls the student and adds exactly the course's
      credits and one course to their totals, which stay within 11 and 2;
      nobody else's totals move. */
  lemma JoinTotals(st: Store, u: UserId, c: CourseId, v: UserId)
    requires EnrollmentsLinked(st)
    requires Join(st, u, c).reply == Joined
    ensures var r := Join(st, u, c).store;
            && IsEnrolled(r, u, c)
            && (v == u ==> CreditSum(r, v) == CreditSum(st, v) + st.courses[c].credits <= CreditCap
                           && EnrollmentCount(r, v) == EnrollmentCount(st, v) + 1 <= CourseCap)
            && (v != u ==> CreditSum(r, v) == CreditSum(st, v) && EnrollmentCount(r, v) == EnrollmentCount(st, v))
  {
    var r := Join(st, u, c).store;
    AddEnrollmentTotals(st, u, c, v);
    assert r.enrollments[st.nextEnrollment] == Enrollment(u, c, false);
  }

  /** Adding enrollments keeps every existing one, so everybody enrolled
      stays enrolled. */
  lemma MoreEnrollmentsKeepEnrolled(st: Store, r: Store, x: CourseId, v: UserId)
    requires forall e :: e in st.enrollments ==> e in r.enrollments && r.enrollments[e] == st.enrollments[e]
    requires IsEnrolled(st, v, x)
    ensures IsEnrolled(r, v, x)
  {
    var e :| e in st.enrollments && st.enrollments[e].user == v && st.enrollments[e].course == x;
    assert r.enrollments[e] == st.enrollments[e];
  }

  /** Roles stay enrolled when courses keep their roles and no enrollment
      is lost. */
  lemma MoreEnrollmentsKeepRoles(st: Store, r: Store)
    requires RolesEnrolled(st)
    requires forall e :: e in st.enrollments ==> e in r.enrollments && r.enrollments[e] == st.enrollments[e]
    requires forall x :: x in r.courses ==> x in st.courses
    requires forall x :: x in r.courses ==> r.courses[x].creator == st.courses[x].creator
                                            && r.courses[x].pendingDelegate == st.courses[x].pendingDelegate
    ensures RolesEnrolled(r)
  {
    forall x | x in r.courses
      ensures IsEnrolled(r, r.courses[x].creator, x)
      ensures r.courses[x].pendingDelegate.Some? ==> IsEnrolled(r, r.courses[x].pendingDelegate.value, x)
    {
      MoreEnrollmentsKeepEnrolled(st, r, x, st.courses[x].creator);
      if st.courses[x].pendingDelegate.Some? {
        MoreEnrollmentsKeepEnrolled(st, r, x, st.courses[x].pendingDelegate.value);
      }
    }
  }

  /** Keeping some of the enrollments, unchanged, keeps them unique. */
  lemma FewerEnrollmentsKeepUnique(st: Store, r: Store)
    requires UniqueEnrollments(st)
    requires forall e :: e in r.enrollments ==> e in st.enrollments && r.enrollments[e] == st.enrollments[e]
    ensures UniqueEnrollments(r)
  {
    forall e1, e2 | e1 in r.enrollments && e2 in r.enrollments && e1 != e2
      ensures (r.enrollments[e1].user, r.enrollments[e1].course) != (r.enrollments[e2].user, r.enrollments[e2].course)
    {
      assert r.enrollments[e1] == st.enrollments[e1] && r.enrollments[e2] == st.enrollments[e2];
    }
  }

  /** A student stays enrolled in a course while every enrollment of
      theirs in it is kept. */
  lemma KeptEnrollmentsKeepEnrolled(st: Store, r: Store, v: UserId, x: CourseId)
    requires IsEnrolled(st, v, x)
    requires forall e :: e in st.enrollments && st.enrollments[e].user == v && st.enrollments[e].course == x ==>
               e in r.enrollments && r.enrollments[e] == st.enrollments[e]
    ensures IsEnrolled(r, v, x)
  {
    var e :| e in st.enrollments && st.enrollments[e].user == v && st.enrollments[e].course == x;
    assert r.enrollments[e] == st.enrollments[e];
  }

  /** A new enrollment of an existing user in an existing course, who is
      not yet enrolled there, keeps the schema constraints. */
  lemma AddEnrollmentKeepsValid(st: Store, u: UserId, c: CourseId)
    requires Valid(st) && u in st.users && c in st.courses && !IsEnrolled(st, u, c)
    ensures Valid(AddEnrollment(st, u, c))
  {
    var r := AddEnrollment(st, u, c);
    AddEnrollmentKeepsUnique(st, u, c);
    forall x | x in r.courses ensures x < r.nextCourse && ValidCourse(r, r.courses[x]) {
      assert ValidCourse(st, st.courses[x]);
    }
  }

  /** A new enrollment of a student not yet in the course keeps the
      enrollments unique. */
  lemma AddEnrollmentKeepsUnique(st: Store, u: UserId, c: CourseId)
    requires Valid(st) && !IsEnrolled(st, u, c)
    ensures UniqueEnrollments(AddEnrollment(st, u, c))
  {
    var r := AddEnrollment(st, u, c);
    var n := st.nextEnrollment;
    forall e1, e2 | e1 in r.enrollments && e2 in r.enrollments && e1 != e2
      ensures (r.enrollments[e1].user, r.enrollments[e1].course) != (r.enrollments[e2].user, r.enrollments[e2].course)
    {
      if e1 != n && e2 != n {
        assert r.enrollments[e1] == st.enrollments[e1] && r.enrollments[e2] == st.enrollments[e2];
      }
    }
  }

  /** A new enrollment of a student not yet in the course keeps the
      invariants. */
  lemma AddEnrollmentKeepsInvariants(st: Store, u: UserId, c: CourseId)
    requires Invariants(st) && u in st.users && c in st.courses && !IsEnrolled(st, u, c)
    ensures Invariants(AddEnrollment(st, u, c))
  {
    AddEnrollmentKeepsValid(st, u, c);
    AddEnrollmentKeepsRoles(st, u, c);
    AddEnrollmentKeepsCover(st, u, c);
  }

  lemma AddEnrollmentKeepsRoles(st: Store, u: UserId, c: CourseId)
    requires RolesEnrolled(st) && EnrollmentsLinked(st)
    ensures RolesEnrolled(AddEnrollment(st, u, c))
  {
    MoreEnrollmentsKeepRoles(st, AddEnrollment(st, u, c));
  }

  lemma AddEnrollmentKeepsCover(st: Store, u: UserId, c: CourseId)
    requires GroupsCoverSchools(st)
    ensures GroupsCoverSchools(AddEnrollment(st, u, c))
  {
    assert AddEnrollment(st, u, c).courses == st.courses;
  }

  /** Joining keeps the invariants. */
  lemma JoinKeepsInvariants(st: Store, u: UserId, c: CourseId)
    requires Invariants(st) && u in st.users
    ensures Invariants(Join(st, u, c).store)
  {
    if Join(st, u, c).reply == Joined {
      AddEnrollmentKeepsInvariants(st, u, c);
    }
  }

  /** Joining keeps every student within 11 credits and 2 courses. */
  lemma JoinKeepsLimits(st: Store, u: UserId, c: CourseId)
    requires Valid(st) && WithinLimits(st)
    ensures WithinLimits(Join(st, u, c).store)
  {
    var r := Join(st, u, c);
    if r.reply == Joined {
      forall v | v in r.store.users
        ensures CreditSum(r.store, v) <= CreditCap && EnrollmentCount(r.store, v) <= CourseCap
      {
        JoinTotals(st, u, c, v);
      }
    }
  }

  // ---------------------------------------------------------------------
  // Create

  /** The course the create view saves for a valid submission. */
  function ProposedCourse(st: Store, u: UserId, input: FormInput, d: Extraction): (c: Course)
    requires u in st.users && st.users[u].school.Some? && input.syllabus.Some? && input.credits >= 0
  {
    NewCourse(input, u, st.users[u].school.value, EffectiveCredits(d, input.credits), d.content)
  }

  /** A successful proposal saves, under the next course number, a course
      of the student's school with them as delegate, the thematic content
      as cache and the effective credits, not yet grouped; the student is
      enrolled in it. */
  lemma CreateCourseEffects(st: Store, u: UserId, input: FormInput, d: Extraction)
    requires u in st.users
    requires CreateCourse(st, u, input, d).reply.Created?
    ensures var r := CreateCourse(st, u, input, d);
            && r.reply.course == st.nextCourse
            && r.store == AddEnrollment(AddCourse(st, ProposedCourse(st, u, input, d)), u, st.nextCourse)
            && var course := r.store.courses[st.nextCourse];
            && course.creator == u && course.school == st.users[u].school.value
            && course.cache == d.content && course.credits == EffectiveCredits(d, input.credits)
            && course.group.None? && course.pendingDelegate.None? && course.embedding.None?
            && IsEnrolled(r.store, u, st.nextCourse)
  {
    var r := CreateCourse(st, u, input, d);
    assert r.store.enrollments[st.nextEnrollment] == Enrollment(u, st.nextCourse, false);
  }

  /** The credits a proposal gets are within 1..11: the form demands
      1..11 and the syllabus states at most one digit. */
  lemma EffectiveCreditsInRange(input: FormInput, d: Extraction)
    requires FormValid(input) && WellShaped(d)
    ensures CreditsInRange(EffectiveCredits(d, input.credits))
  {
  }

  /** Saving a new valid course keeps the schema constraints. */
  lemma AddCourseKeepsValid(st: Store, course: Course)
    requires Valid(st) && ValidCourse(st, course)
    ensures Valid(AddCourse(st, course))
    ensures !IsEnrolled(AddCourse(st, course), course.creator, st.nextCourse)
  {
    var r := AddCourse(st, course);
    forall x | x in r.courses ensures x < r.nextCourse && ValidCourse(r, r.courses[x]) {
      if x != st.nextCourse {
        assert ValidCourse(st, st.courses[x]);
      }
    }
  }

  /** A new course with its delegate enrolled keeps every role enrolled. */
  lemma FoundingKeepsRoles(st: Store, u: UserId, course: Course)
    requires RolesEnrolled(st) && EnrollmentsLinked(st) && st.nextCourse !in st.courses
    requires course.creator == u && course.pendingDelegate.None?
    ensures RolesEnrolled(AddEnrollment(AddCourse(st, course), u, st.nextCourse))
  {
    var r := AddEnrollment(AddCourse(st, course), u, st.nextCourse);
    assert r.enrollments[st.nextEnrollment] == Enrollment(u, st.nextCourse, false);
    forall x | x in r.courses
      ensures IsEnrolled(r, r.courses[x].creator, x)
      ensures r.courses[x].pendingDelegate.Some? ==> IsEnrolled(r, r.courses[x].pendingDelegate.value, x)
    {
      if x != st.nextCourse {
        MoreEnrollmentsKeepEnrolled(st, r, x, st.courses[x].creator);
        if st.courses[x].pendingDelegate.Some? {
          MoreEnrollmentsKeepEnrolled(st, r, x, st.courses[x].pendingDelegate.value);
        }
      }
    }
  }

  /** A new ungrouped course keeps grouped courses' schools covered. */
  lemma FoundingKeepsCover(st: Store, u: UserId, course: Course)
    requires GroupsCoverSchools(st) && course.group.None?
    ensures GroupsCoverSchools(AddEnrollment(AddCourse(st, course), u, st.nextCourse))
  {
  }

  /** A new valid course with its delegate enrolled keeps the
      invariants. */
  lemma FoundingKeepsInvariants(st: Store, u: UserId, course: Course)
    requires Invariants(st) && ValidCourse(st, course) && u in st.users
    requires course.creator == u && course.pendingDelegate.None? && course.group.None?
    ensures Invariants(AddEnrollment(AddCourse(st, course), u, st.nextCourse))
  {
    var st1 := AddCourse(st, course);
    AddCourseKeepsValid(st, course);
    AddEnrollmentKeepsValid(st1, u, st.nextCourse);
    FoundingKeepsRoles(st, u, course);
    FoundingKeepsCover(st, u, course);
  }

  /** Proposing a course keeps the invariants. */
  lemma CreateCourseKeepsInvariants(st: Store, u: UserId, input: FormInput, d: Extraction)
    requires Invariants(st) && u in st.users && WellShaped(d)
    ensures Invariants(CreateCourse(st, u, input, d).store)
  {
    var r := CreateCourse(st, u, input, d);
    if r.reply.Created? {
      EffectiveCreditsInRange(input, d);
      FoundingKeepsInvariants(st, u, ProposedCourse(st, u, input, d));
    }
  }

  /** Saving a new course leaves every existing student's totals alone. */
  lemma AddCourseKeepsTotals(st: Store, course: Course, v: UserId)
    requires Valid(st)
    ensures CreditSum(AddCourse(st, course), v) == CreditSum(st, v)
    ensures EnrollmentCount(AddCourse(st, course), v) == EnrollmentCount(st, v)
  {
    var r := AddCourse(st, course);
    assert EnrollmentsOf(r, v) == EnrollmentsOf(st, v);
    forall e | e in EnrollmentsOf(st, v) ensures EnrollmentCredits(r, e) == EnrollmentCredits(st, e) {
      assert st.enrollments[e].course != st.nextCourse;
    }
    SameEnrollmentsSameTotals(st, r, v);
  }

  /** Proposing a course keeps every student within 11 credits and 2
      courses: the delegate's own enrollment passes the same caps as a
      join. */
  lemma CreateCourseKeepsLimits(st: Store, u: UserId, input: FormInput, d: Extraction)
    requires Valid(st) && WithinLimits(st) && u in st.users && WellShaped(d)
    ensures WithinLimits(CreateCourse(st, u, input, d).store)
  {
    var r := CreateCourse(st, u, input, d);
    if r.reply.Created? {
      var course := ProposedCourse(st, u, input, d);
      var st1 := AddCourse(st, course);
      EffectiveCreditsInRange(input, d);
      AddCourseKeepsValid(st, course);
      assert EnrollmentsLinked(st1);
      forall v | v in r.store.users
        ensures CreditSum(r.store, v) <= CreditCap && EnrollmentCount(r.store, v) <= CourseCap
      {
        AddCourseKeepsTotals(st, course, v);
        AddEnrollmentTotals(st1, u, st.nextCourse, v);
      }
    }
  }

  // ---------------------------------------------------------------------
  // Leave, delegate hand-over, documents

  /** Replacing a course by one with the same school, group and credits,
      whose delegate and nominee are enrolled users, keeps the
      invariants. */
  lemma SetCourseKeepsInvariants(st: Store, c: CourseId, course: Course)
    requires Invariants(st) && c in st.courses
    requires ValidCourse(st, course)
    requires course.school == st.courses[c].school && course.group == st.courses[c].group
    requires IsEnrolled(st, course.creator, c)
    requires course.pendingDelegate.Some? ==> IsEnrolled(st, course.pendingDelegate.value, c)
    ensures Invariants(SetCourse(st, c, course))
  {
    SetCourseKeepsValid(st, c, course);
    SetCourseKeepsRoles(st, c, course);
  }

  lemma SetCourseKeepsValid(st: Store, c: CourseId, course: Course)
    requires Valid(st) && c in st.courses && ValidCourse(st, course)
    ensures Valid(SetCourse(st, c, course))
  {
    var r := SetCourse(st, c, course);
    forall x | x in r.courses ensures x < r.nextCourse && ValidCourse(r, r.courses[x]) {
      assert ValidCourse(st, st.courses[x]);
    }
    assert UniqueEnrollments(r) by {
      assert r.enrollments == st.enrollments;
    }
  }

  lemma SetCourseKeepsRoles(st: Store, c: CourseId, course: Course)
    requires RolesEnrolled(st) && c in st.courses
    requires IsEnrolled(st, course.creator, c)
    requires course.pendingDelegate.Some? ==> IsEnrolled(st, course.pendingDelegate.value, c)
    ensures RolesEnrolled(SetCourse(st, c, course))
  {
    var r := SetCourse(st, c, course);
    forall x | x in r.courses
      ensures IsEnrolled(r, r.courses[x].creator, x)
      ensures r.courses[x].pendingDelegate.Some? ==> IsEnrolled(r, r.courses[x].pendingDelegate.value, x)
    {
    }
  }

  /** Replacing a course by one with the same credits leaves everybody's
      totals alone. */
  lemma SetCourseKeepsTotals(st: Store, c: CourseId, course: Course, v: UserId)
    requires c in st.courses && course.credits == st.courses[c].credits
    ensures CreditSum(SetCourse(st, c, course), v) == CreditSum(st, v)
    ensures EnrollmentCount(SetCourse(st, c, course), v) == EnrollmentCount(st, v)
  {
    var r := SetCourse(st, c, course);
    assert EnrollmentsOf(r, v) == EnrollmentsOf(st, v);
    SameEnrollmentsSameTotals(st, r, v);
  }

  /** Dropping the enrollments of a student who is neither delegate nor
      nominee of the course keeps the invariants. */
  lemma DropEnrollmentKeepsInvariants(st: Store, u: UserId, c: CourseId)
    requires Invariants(st) && c in st.courses
    requires st.courses[c].creator != u && st.courses[c].pendingDelegate != Some(u)
    ensures Invariants(DropEnrollment(st, u, c))
  {
    DropEnrollmentKeepsValid(st, u, c);
    DropEnrollmentKeepsRoles(st, u, c);
  }

  lemma DropEnrollmentKeepsValid(st: Store, u: UserId, c: CourseId)
    requires Valid(st)
    ensures Valid(DropEnrollment(st, u, c))
  {
    var r := DropEnrollment(st, u, c);
    FewerEnrollmentsKeepUnique(st, r);
    assert r.courses == st.courses && r.users == st.users;
  }

  lemma DropEnrollmentKeepsRoles(st: Store, u: UserId, c: CourseId)
    requires RolesEnrolled(st) && c in st.courses
    requires st.courses[c].creator != u && st.courses[c].pendingDelegate != Some(u)
    ensures RolesEnrolled(DropEnrollment(st, u, c))
  {
    var r := DropEnrollment(st, u, c);
    forall x | x in r.courses
      ensures IsEnrolled(r, r.courses[x].creator, x)
      ensures r.courses[x].pendingDelegate.Some? ==> IsEnrolled(r, r.courses[x].pendingDelegate.value, x)
    {
      KeptEnrollmentsKeepEnrolled(st, r, st.courses[x].creator, x);
      if st.courses[x].pendingDelegate.Some? {
        KeptEnrollmentsKeepEnrolled(st, r, st.courses[x].pendingDelegate.value, x);
      }
    }
  }

  /** Deleting a course with its enrollments keeps the invariants. */
  lemma DeleteCourseKeepsInvariants(st: Store, c: CourseId)
    requires Invariants(st)
    ensures Invariants(DeleteCourse(st, c))
  {
    DeleteCourseKeepsValid(st, c);
    DeleteCourseKeepsRoles(st, c);
  }

  lemma DeleteCourseKeepsValid(st: Store, c: CourseId)
    requires Valid(st)
    ensures Valid(DeleteCourse(st, c))
  {
    var r := DeleteCourse(st, c);
    forall x | x in r.courses ensures x < r.nextCourse && ValidCourse(r, r.courses[x]) {
      assert ValidCourse(st, st.courses[x]);
    }
    FewerEnrollmentsKeepUnique(st, r);
  }

  lemma DeleteCourseKeepsRoles(st: Store, c: CourseId)
    requires RolesEnrolled(st)
    ensures RolesEnrolled(DeleteCourse(st, c))
  {
    var r := DeleteCourse(st, c);
    forall x | x in r.courses
      ensures IsEnrolled(r, r.courses[x].creator, x)
      ensures r.courses[x].pendingDelegate.Some? ==> IsEnrolled(r, r.courses[x].pendingDelegate.value, x)
    {
      KeptEnrollmentsKeepEnrolled(st, r, st.courses[x].creator, x);
      if st.courses[x].pendingDelegate.Some? {
        KeptEnrollmentsKeepEnrolled(st, r, st.courses[x].pendingDelegate.value, x);
      }
    }
  }

  /** Leaving keeps the invariants: the delegate never leaves a course
      they still lead, and a leaving nominee loses the nomination first. */
  lemma LeaveKeepsInvariants(st: Store, u: UserId, c: CourseId)
    requires Invariants(st)
    ensures Invariants(Leave(st, u, c).store)
  {
    var r := Leave(st, u, c);
    if r.reply == CourseDeleted {
      DeleteCourseKeepsInvariants(st, c);
    } else if r.reply == Left || r.reply == NotEnrolled {
      var course := st.courses[c];
      var st1 := st;
      if course.pendingDelegate == Some(u) {
        st1 := SetCourse(st, c, course.(pendingDelegate := None));
        assert ValidCourse(st, course);
        SetCourseKeepsInvariants(st, c, course.(pendingDelegate := None));
      }
      DropEnrollmentKeepsInvariants(st1, u, c);
    }
  }

  /** Dropping or deleting never adds to anybody's totals. */
  lemma LeaveLowersTotals(st: Store, u: UserId, c: CourseId, v: UserId)
    ensures CreditSum(Leave(st, u, c).store, v) <= CreditSum(st, v)
    ensures EnrollmentCount(Leave(st, u, c).store, v) <= EnrollmentCount(st, v)
  {
    var r := Leave(st, u, c);
    if r.reply == CourseDeleted {
      FewerEnrollmentsLowerTotals(st, r.store, v);
    } else if r.reply == Left || r.reply == NotEnrolled {
      var course := st.courses[c];
      var st1 := st;
      if course.pendingDelegate == Some(u) {
        st1 := SetCourse(st, c, course.(pendingDelegate := None));
        SetCourseKeepsTotals(st, c, course.(pendingDelegate := None), v);
      }
      FewerEnrollmentsLowerTotals(st1, r.store, v);
    }
  }

  /** Leaving keeps every student within 11 credits and 2 courses. */
  lemma LeaveKeepsLimits(st: Store, u: UserId, c: CourseId)
    requires WithinLimits(st)
    ensures WithinLimits(Leave(st, u, c).store)
  {
    forall v | v in Leave(st, u, c).store.users
      ensures CreditSum(Leave(st, u, c).store, v) <= CreditCap
      ensures EnrollmentCount(Leave(st, u, c).store, v) <= CourseCap
    {
      LeaveLowersTotals(st, u, c, v);
    }
  }

  /** After leaving, the student is no longer in the course, and a deleted
      course leaves no enrollment behind; only the delegate of a course
      with other members stays. */
  lemma LeaveRemovesStudent(st: Store, u: UserId, c: CourseId)
    requires c in st.courses
    ensures var r := Leave(st, u, c);
            r.reply != DelegateCannotLeave ==> !IsEnrolled(r.store, u, c)
    ensures var r := Leave(st, u, c);
            r.reply == CourseDeleted ==> c !in r.store.courses && MembersOf(r.store, c) == {}
  {
  }

  /** Dropping a student's only enrollment in a course removes exactly
      its credits and one course from their totals. */
  lemma DropEnrollmentTotals(st: Store, u: UserId, c: CourseId, e: EnrollmentId)
    requires UniqueEnrollments(st)
    requires e in st.enrollments && st.enrollments[e].user == u && st.enrollments[e].course == c
    ensures CreditSum(DropEnrollment(st, u, c), u) + EnrollmentCredits(st, e) == CreditSum(st, u)
    ensures EnrollmentCount(DropEnrollment(st, u, c), u) + 1 == EnrollmentCount(st, u)
  {
    var r := DropEnrollment(st, u, c);
    assert EnrollmentsOf(r, u) == EnrollmentsOf(st, u) - {e};
    forall x | x in EnrollmentsOf(r, u) ensures Weights(r)(x) == Weights(st)(x) {
      assert r.enrollments[x] == st.enrollments[x];
    }
    SumOverSameWeights(EnrollmentsOf(r, u), Weights(r), Weights(st));
    SumOverRemove(EnrollmentsOf(st, u), e, Weights(st));
  }

  /** A student who leaves gives back exactly the course's credits and
      one course. */
  lemma LeaveGivesBackCredits(st: Store, u: UserId, c: CourseId)
    requires Valid(st)
    requires Leave(st, u, c).reply == Left
    ensures CreditSum(Leave(st, u, c).store, u) + st.courses[c].credits == CreditSum(st, u)
    ensures EnrollmentCount(Leave(st, u, c).store, u) + 1 == EnrollmentCount(st, u)
  {
    var course := st.courses[c];
    var st1 := if course.pendingDelegate == Some(u) then SetCourse(st, c, course.(pendingDelegate := None)) else st;
    assert Leave(st, u, c).store == DropEnrollment(st1, u, c);
    var e :| e in st.enrollments && st.enrollments[e].user == u && st.enrollments[e].course == c;
    assert UniqueEnrollments(st1) by {
      assert st1.enrollments == st.enrollments;
    }
    assert EnrollmentCredits(st1, e) == course.credits;
    DropEnrollmentTotals(st1, u, c, e);
    SetCourseKeepsTotals(st, c, course.(pendingDelegate := None), u);
  }

  /** Nominating keeps the invariants: the nominee is an enrolled user. */
  lemma NominateKeepsInvariants(st: Store, u: UserId, c: CourseId, nominee: UserId)
    requires Invariants(st)
    ensures Invariants(Nominate(st, u, c, nominee).store)
  {
    if Nominate(st, u, c, nominee).reply == Nominated {
      assert ValidCourse(st, st.courses[c]);
      SetCourseKeepsInvariants(st, c, st.courses[c].(pendingDelegate := Some(nominee)));
    }
  }

  /** Answering a nomination keeps the invariants: the new delegate was
      the enrolled nominee. */
  lemma RespondKeepsInvariants(st: Store, u: UserId, c: CourseId, action: string)
    requires Invariants(st)
    ensures Invariants(Respond(st, u, c, action).store)
  {
    var r := Respond(st, u, c, action);
    if r.reply == Promoted {
      assert ValidCourse(st, st.courses[c]);
      SetCourseKeepsInvariants(st, c, st.courses[c].(creator := u, pendingDelegate := None));
    } else if r.reply == Declined {
      assert ValidCourse(st, st.courses[c]);
      SetCourseKeepsInvariants(st, c, st.courses[c].(pendingDelegate := None));
    }
  }

  /** The delegate changes only when the pending nominee accepts: a
      nomination or any other answer leaves the delegate of every course
      as it was. */
  lemma DelegateChangesOnlyByAcceptance(st: Store, u: UserId, c: CourseId, nominee: UserId, action: string, x: CourseId)
    requires x in st.courses
    ensures x in Nominate(st, u, c, nominee).store.courses
    ensures Nominate(st, u, c, nominee).store.courses[x].creator == st.courses[x].creator
    ensures x in Respond(st, u, c, action).store.courses
    ensures Respond(st, u, c, action).store.courses[x].creator != st.courses[x].creator ==>
              x == c && st.courses[c].pendingDelegate == Some(u) && action == "aceptar"
              && Respond(st, u, c, action).store.courses[x].creator == u
  {
  }

  /** Nominating and answering never move anybody's totals. */
  lemma HandOverKeepsLimits(st: Store, u: UserId, c: CourseId, nominee: UserId, action: string)
    requires WithinLimits(st)
    ensures WithinLimits(Nominate(st, u, c, nominee).store)
    ensures WithinLimits(Respond(st, u, c, action).store)
  {
    var n := Nominate(st, u, c, nominee);
    if n.reply == Nominated {
      forall v | v in n.store.users
        ensures CreditSum(n.store, v) <= CreditCap && EnrollmentCount(n.store, v) <= CourseCap
      {
        SetCourseKeepsTotals(st, c, st.courses[c].(pendingDelegate := Some(nominee)), v);
      }
    }
    var a := Respond(st, u, c, action);
    if a.reply == Promoted {
      forall v | v in a.store.users
        ensures CreditSum(a.store, v) <= CreditCap && EnrollmentCount(a.store, v) <= CourseCap
      {
        SetCourseKeepsTotals(st, c, st.courses[c].(creator := u, pendingDelegate := None), v);
      }
    } else if a.reply == Declined {
      forall v | v in a.store.users
        ensures CreditSum(a.store, v) <= CreditCap && EnrollmentCount(a.store, v) <= CourseCap
      {
        SetCourseKeepsTotals(st, c, st.courses[c].(pendingDelegate := None), v);
      }
    }
  }

  /** Changing whether an enrollment holds a document keeps everybody's
      totals. */
  lemma SetDocumentKeepsTotals(st: Store, e: EnrollmentId, has: bool, v: UserId)
    requires e in st.enrollments
    ensures CreditSum(SetDocument(st, e, has), v) == CreditSum(st, v)
    ensures EnrollmentCount(SetDocument(st, e, has), v) == EnrollmentCount(st, v)
  {
    var r := SetDocument(st, e, has);
    assert EnrollmentsOf(r, v) == EnrollmentsOf(st, v);
    SameEnrollmentsSameTotals(st, r, v);
  }

  /** A document flag is not part of the (student, course) pair. */
  lemma SetDocumentKeepsUnique(st: Store, e: EnrollmentId, has: bool)
    requires UniqueEnrollments(st) && e in st.enrollments
    ensures UniqueEnrollments(SetDocument(st, e, has))
  {
    var r := SetDocument(st, e, has);
    forall e1, e2 | e1 in r.enrollments && e2 in r.enrollments && e1 != e2
      ensures (r.enrollments[e1].user, r.enrollments[e1].course) != (r.enrollments[e2].user, r.enrollments[e2].course)
    {
      assert st.enrollments[e1].user == r.enrollments[e1].user && st.enrollments[e1].course == r.enrollments[e1].course;
      assert st.enrollments[e2].user == r.enrollments[e2].user && st.enrollments[e2].course == r.enrollments[e2].course;
    }
  }

  /** A document flag does not change who is enrolled where. */
  lemma SetDocumentKeepsEnrolled(st: Store, e: EnrollmentId, has: bool, v: UserId, x: CourseId)
    requires e in st.enrollments
    ensures IsEnrolled(SetDocument(st, e, has), v, x) <==> IsEnrolled(st, v, x)
  {
    var r := SetDocument(st, e, has);
    if IsEnrolled(st, v, x) {
      var d :| d in st.enrollments && st.enrollments[d].user == v && st.enrollments[d].course == x;
      assert d in r.enrollments && r.enrollments[d].user == v && r.enrollments[d].course == x;
    }
    if IsEnrolled(r, v, x) {
      var d :| d in r.enrollments && r.enrollments[d].user == v && r.enrollments[d].course == x;
      assert d in st.enrollments && st.enrollments[d].user == v && st.enrollments[d].course == x;
    }
  }

  /** Changing whether an enrollment holds a document keeps the
      invariants. */
  lemma SetDocumentKeepsInvariants(st: Store, e: EnrollmentId, has: bool)
    requires Invariants(st) && e in st.enrollments
    ensures Invariants(SetDocument(st, e, has))
  {
    SetDocumentKeepsValid(st, e, has);
    SetDocumentKeepsRoles(st, e, has);
    assert SetDocument(st, e, has).courses == st.courses && SetDocument(st, e, has).groups == st.groups;
  }

  lemma SetDocumentKeepsValid(st: Store, e: EnrollmentId, has: bool)
    requires Valid(st) && e in st.enrollments
    ensures Valid(SetDocument(st, e, has))
  {
    var r := SetDocument(st, e, has);
    SetDocumentKeepsUnique(st, e, has);
    assert r.courses == st.courses && r.users == st.users && r.enrollments.Keys == st.enrollments.Keys;
  }

  lemma SetDocumentKeepsRoles(st: Store, e: EnrollmentId, has: bool)
    requires RolesEnrolled(st) && e in st.enrollments
    ensures RolesEnrolled(SetDocument(st, e, has))
  {
    var r := SetDocument(st, e, has);
    forall x | x in r.courses
      ensures IsEnrolled(r, r.courses[x].creator, x)
      ensures r.courses[x].pendingDelegate.Some? ==> IsEnrolled(r, r.courses[x].pendingDelegate.value, x)
    {
      SetDocumentKeepsEnrolled(st, e, has, st.courses[x].creator, x);
      if st.courses[x].pendingDelegate.Some? {
        SetDocumentKeepsEnrolled(st, e, has, st.courses[x].pendingDelegate.value, x);
      }
    }
  }

  /** Setting a document flag keeps every student within the limits. */
  lemma SetDocumentKeepsLimits(st: Store, e: EnrollmentId, has: bool)
    requires WithinLimits(st) && e in st.enrollments
    ensures WithinLimits(SetDocument(st, e, has))
  {
    forall v | v in st.users
      ensures CreditSum(SetDocument(st, e, has), v) <= CreditCap
      ensures EnrollmentCount(SetDocument(st, e, has), v) <= CourseCap
    {
      SetDocumentKeepsTotals(st, e, has, v);
    }
  }

  /** Documents change only on their owner's request, and only the
      enrollment named: everything else in the store stays. */
  lemma DocumentsOnlyByOwner(st: Store, u: UserId, e: EnrollmentId, submitted: Option<bool>)
    ensures var r := UploadDocument(st, u, e, submitted).store;
            r != st ==> e in st.enrollments && st.enrollments[e].user == u
                        && r == SetDocument(st, e, r.enrollments[e].hasDocument)
    ensures var r := DeleteDocument(st, u, e).store;
            r != st ==> e in st.enrollments && st.enrollments[e].user == u
                        && r == SetDocument(st, e, false)
  {
  }

  /** The upload view keeps the invariants and every student's limits. */
  lemma UploadKeepsInvariants(st: Store, u: UserId, e: EnrollmentId, submitted: Option<bool>)
    requires Invariants(st) && WithinLimits(st)
    ensures Invariants(UploadDocument(st, u, e, submitted).store)
    ensures WithinLimits(UploadDocument(st, u, e, submitted).store)
  {
    if UploadDocument(st, u, e, submitted).reply == DocumentSaved {
      SetDocumentKeepsInvariants(st, e, submitted.value);
      SetDocumentKeepsLimits(st, e, submitted.value);
    }
  }

  /** The delete view keeps the invariants and every student's limits. */
  lemma DeleteDocumentKeepsInvariants(st: Store, u: UserId, e: EnrollmentId)
    requires Invariants(st) && WithinLimits(st)
    ensures Invariants(DeleteDocument(st, u, e).store)
    ensures WithinLimits(DeleteDocument(st, u, e).store)
  {
    if DeleteDocument(st, u, e).reply == DocumentRemoved {
      SetDocumentKeepsInvariants(st, e, false);
      SetDocumentKeepsLimits(st, e, false);
    }
  }
}
