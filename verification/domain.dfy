/** The data of the application (`apps/courses/models.py` and the user
    record it refers to): students, schools, proposed courses,
    equivalence groups and enrollments, kept in one immutable store, with
    the constraints the database enforces and the derived quantities the
    views use. */
module Domain {
  import opened Base
  import opened Text

  type UserId = nat
  type CourseId = nat
  type GroupId = nat
  type SchoolId = nat
  type EnrollmentId = nat

  /** A student account. An optional text that is missing is the empty
      string: every check of the application treats `None` and `""`
      alike. */
  datatype User = User(
    email: string,
    firstName: string,
    lastName: string,
    school: Option<SchoolId>,
    cui: string,          // student code (`codigo_alumno`)
    phone: string         // mobile number (`celular`)
  )

  /** The life cycle of a proposal (`Curso.ESTADOS`). */
  datatype Status = Proposed | GoalReached | InProcess | Approved | Closed

  /** A proposed course (`Curso`). */
  datatype Course = Course(
    name: string,
    description: string,
    credits: nat,
    code: string,                  // `codigo_curso`, empty when unknown
    school: SchoolId,
    group: Option<GroupId>,        // `grupo_equivalencia`
    creator: UserId,               // the delegate
    syllabusText: string,          // what the PDF reader yields for the stored file
    syllabusSize: nat,             // bytes of the stored file
    whatsapp: string,
    minStudents: nat,
    status: Status,
    pendingDelegate: Option<UserId>,
    cache: string,                 // `contenido_cache`
    embedding: Option<seq<real>>   // `embedding_vector`; `None` is SQL NULL
  )

  /** An equivalence group (`GrupoEquivalencia`). */
  datatype Group = Group(name: string, description: string, schools: set<SchoolId>)

  /** An enrollment (`Inscripcion`); `hasDocument` tells whether a
      supporting document is attached. */
  datatype Enrollment = Enrollment(user: UserId, course: CourseId, hasDocument: bool)

  /** The database. Groups are numbered by position; courses and
      enrollments are numbered in creation order, so a larger number means
      a later `created_at`. */
  datatype Store = Store(
    schools: map<SchoolId, string>,
    users: map<UserId, User>,
    courses: map<CourseId, Course>,
    groups: seq<Group>,
    enrollments: map<EnrollmentId, Enrollment>,
    nextCourse: nat,
    nextEnrollment: nat
  )

  /** The credit range the model field allows. */
  const MinCredits: nat := 1
  const MaxCredits: nat := 11

  predicate CreditsInRange(n: nat) {
    MinCredits <= n <= MaxCredits
  }

  /** Each enrollment pairs a different user and course. */
  predicate UniqueEnrollments(st: Store) {
    forall e1, e2 :: e1 in st.enrollments && e2 in st.enrollments && e1 != e2 ==>
      (st.enrollments[e1].user, st.enrollments[e1].course) != (st.enrollments[e2].user, st.enrollments[e2].course)
  }

  predicate ValidCourse(st: Store, c: Course) {
    && CreditsInRange(c.credits)
    && c.school in st.schools
    && c.creator in st.users
    && (c.group.Some? ==> c.group.value < |st.groups|)
    && (c.pendingDelegate.Some? ==> c.pendingDelegate.value in st.users)
  }

  /** The constraints of the schema: field ranges, foreign keys and the
      `unique_together` of enrollments. */
  predicate Valid(st: Store) {
    && (forall id :: id in st.courses ==> id < st.nextCourse && ValidCourse(st, st.courses[id]))
    && (forall id :: id in st.users ==> st.users[id].school.Some? ==> st.users[id].school.value in st.schools)
    && (forall e :: e in st.enrollments ==>
          && e < st.nextEnrollment
          && st.enrollments[e].user in st.users
          && st.enrollments[e].course in st.courses)
    && UniqueEnrollments(st)
  }

  /** The enrollments of user `u`. */
  function EnrollmentsOf(st: Store, u: UserId): (r: set<EnrollmentId>)
    ensures forall e :: e in r <==> e in st.enrollments && st.enrollments[e].user == u
  {
    set e | e in st.enrollments && st.enrollments[e].user == u
  }

  /** The enrollments in course `c` (`curso.inscripciones`). */
  function MembersOf(st: Store, c: CourseId): (r: set<EnrollmentId>)
    ensures forall e :: e in r <==> e in st.enrollments && st.enrollments[e].course == c
  {
    set e | e in st.enrollments && st.enrollments[e].course == c
  }

  predicate IsEnrolled(st: Store, u: UserId, c: CourseId) {
    exists e :: e in st.enrollments && st.enrollments[e] .user == u && st.enrollments[e].course == c
  }

  /** The credits of the course an enrollment belongs to. */
  function EnrollmentCredits(st: Store, e: EnrollmentId): nat {
    if e in st.enrollments && st.enrollments[e].course in st.courses
    then st.courses[st.enrollments[e].course].credits
    else 0
  }

  /** The credits of every enrollment, as one function. */
  function Weights(st: Store): nat -> nat {
    e => EnrollmentCredits(st, e)
  }

  /** `Sum('curso__creditos') or 0` over the enrollments of `u`. */
  function CreditSum(st: Store, u: UserId): nat {
    SumOver(EnrollmentsOf(st, u), Weights(st))
  }

  /** The number of enrollments of `u`. */
  function EnrollmentCount(st: Store, u: UserId): nat {
    |EnrollmentsOf(st, u)|
  }

  /** The user has entered a school, a student code and a phone number. */
  predicate ProfileComplete(u: User) {
    u.school.Some? && u.cui != [] && u.phone != []
  }

  /** The creator of every course is enrolled in it, and so is a pending
      nominee: the roles the delegate views rely on. */
  predicate RolesEnrolled(st: Store) {
    forall c :: c in st.courses ==>
      && IsEnrolled(st, st.courses[c].creator, c)
      && (st.courses[c].pendingDelegate.Some? ==> IsEnrolled(st, st.courses[c].pendingDelegate.value, c))
  }

  /** Every course in a group belongs to one of the group's schools. */
  predicate GroupsCoverSchools(st: Store) {
    forall c :: c in st.courses && st.courses[c].group.Some? && st.courses[c].group.value < |st.groups| ==>
      st.courses[c].school in st.groups[st.courses[c].group.value].schools
  }

  /** The invariants every view and the matcher keep. */
  predicate Invariants(st: Store) {
    Valid(st) && RolesEnrolled(st) && GroupsCoverSchools(st)
  }

  /** The most credits a student may hold, and the most courses. */
  const CreditCap: nat := 11
  const CourseCap: nat := 2

  /** Every student holds at most 11 credits in at most 2 courses. */
  predicate WithinLimits(st: Store) {
    forall u :: u in st.users ==> CreditSum(st, u) <= CreditCap && EnrollmentCount(st, u) <= CourseCap
  }

  /** `progreso_porcentaje`: 100 when no minimum is set, otherwise the
      enrolled share of the minimum in whole percent, capped at 100. */
  function Progress(enrolled: nat, minimum: nat): (p: nat)
    ensures p <= 100
    ensures minimum == 0 ==> p == 100
    ensures minimum > 0 ==> (p == 100 <==> enrolled >= minimum)
    ensures minimum > 0 && enrolled < minimum ==> p * minimum <= enrolled * 100 < (p + 1) * minimum
  {
    if minimum == 0 then 100
    else
      var q := (enrolled * 100) / minimum;
      DivBounds(enrolled * 100, minimum);
      ShareBelowWhole(enrolled, minimum, q);
      if q < 100 then q else 100
  }

  lemma DivBounds(x: nat, d: nat)
    requires d > 0
    ensures (x / d) * d <= x < (x / d + 1) * d
  {
    assert x == (x / d) * d + x % d;
  }

  /** The whole-percent share reaches 100 exactly at the minimum. */
  lemma ShareBelowWhole(e: nat, m: nat, q: nat)
    requires m > 0
    requires q * m <= e * 100 < (q + 1) * m
    ensures q < 100 <==> e < m
  {
    MulMonotone(100, q, m);
    MulMonotone(q + 1, 100, m);
    MulMonotone(e, m, 100);
    MulMonotone(m, e, 100);
  }

  lemma MulMonotone(a: nat, b: nat, m: nat)
    ensures a <= b ==> a * m <= b * m
  {
  }

  /** More students never lower the progress. */
  lemma ProgressMonotone(a: nat, b: nat, minimum: nat)
    requires a <= b
    ensures Progress(a, minimum) <= Progress(b, minimum)
  {
    if minimum > 0 {
      assert (a * 100) / minimum <= (b * 100) / minimum by {
        DivMonotone(a * 100, b * 100, minimum);
      }
    }
  }

  lemma DivMonotone(x: nat, y: nat, d: nat)
    requires x <= y && d > 0
    ensures x / d <= y / d
  {
    DivBounds(x, d);
    DivBounds(y, d);
    MulMonotone(y / d + 1, x / d, d);
  }

  /** Largest syllabus accepted: 3 MiB. */
  const MaxSyllabusBytes: nat := 3 * 1024 * 1024

  /** `Curso.clean`: a stored syllabus larger than 3 MiB is a validation
      error; no file, or one of at most 3 MiB, is accepted. */
  function CleanCourse(syllabusSize: Option<nat>): (r: Result<()>)
    ensures r.Success? <==> syllabusSize.None? || syllabusSize.value <= MaxSyllabusBytes
    ensures r.Failure? ==> r.error == "El archivo excede el tamaño máximo permitido de 3 MB."
  {
    if syllabusSize.Some? && syllabusSize.value > MaxSyllabusBytes
    then Failure("El archivo excede el tamaño máximo permitido de 3 MB.")
    else Success(())
  }

  /** Exactly 3 MiB passes; one byte more fails. */
  lemma CleanCourseBoundary()
    ensures CleanCourse(Some(3145728)).Success?
    ensures CleanCourse(Some(3145729)).Failure?
  {
  }

  /** The index of the last `c` in `s`, or -1. */
  function LastIndex(s: string, c: char): (i: int)
    ensures -1 <= i < |s|
    ensures i >= 0 ==> s[i] == c
    ensures forall k :: i < k < |s| ==> s[k] != c
  {
    if s == [] then -1
    else if s[|s| - 1] == c then |s| - 1
    else LastIndex(s[..|s| - 1], c)
  }

  /** The last path component, from `sep + 1` to `dot`, has a character
      other than a dot before `dot`. */
  predicate HasStem(p: string, sep: int, dot: int)
    requires -1 <= sep && dot <= |p|
  {
    exists k :: sep + 1 <= k < dot && p[k] != '.'
  }

  /** `os.path.splitext`: the extension is everything from the last dot of
      the last path component on, unless the component before that dot is
      made of dots only (a hidden file such as `.bashrc`). */
  function SplitExt(p: string): (r: (string, string))
    ensures r.0 + r.1 == p
    ensures r.1 != [] ==> r.1[0] == '.' && forall k :: 1 <= k < |r.1| ==> r.1[k] != '.' && r.1[k] != '/'
    ensures r.1 != [] ==> HasStem(p, LastIndex(p, '/'), |r.0|)
    ensures r.1 == [] ==> LastIndex(p, '.') <= LastIndex(p, '/') || !HasStem(p, LastIndex(p, '/'), LastIndex(p, '.'))
  {
    var sep := LastIndex(p, '/');
    var dot := LastIndex(p, '.');
    if dot > sep && HasStem(p, sep, dot) then (p[..dot], p[dot..]) else (p, [])
  }

  /** `syllabus_upload_path`: the storage name of a syllabus, made of the
      slugs of the course and school names, the first six characters of
      the course identifier and the extension of the uploaded name.
      Django's `slugify` is the parameter `slug`. The name lies in the
      "syllabus/" folder, opens with the two slugs each followed by a dash,
      continues with a prefix of the identifier of at most six characters
      (all of it when shorter) and ends with the uploaded extension. */
  function UploadPath(courseName: string, schoolName: string, idText: string, filename: string,
                      slug: string -> string): (path: string)
    ensures |path| >= 9 && path[..9] == "syllabus/"
    ensures EndsWith(path, SplitExt(filename).1)
    ensures var head := "syllabus/" + slug(courseName) + "-" + slug(schoolName) + "-";
            var ext := SplitExt(filename).1;
            && |head| + |ext| <= |path|
            && path[..|head|] == head
            && path[|head|..|path| - |ext|] <= idText
            && |path| - |ext| - |head| == (if |idText| < 6 then |idText| else 6)
  {
    var head := "syllabus/" + slug(courseName) + "-" + slug(schoolName) + "-";
    var ext := SplitExt(filename).1;
    ThreeParts(head, Take(idText, 6), ext);
    assert head[..9] == "syllabus/";
    head + Take(idText, 6) + ext
  }

  /** The three parts of a concatenation can be cut back out of it. */
  lemma ThreeParts(head: string, mid: string, tail: string)
    ensures var p := head + mid + tail;
            && p[..|head|] == head
            && p[|head|..|p| - |tail|] == mid
            && EndsWith(p, tail)
            && (|head| >= 9 ==> p[..9] == head[..9])
  {
    var p := head + mid + tail;
    assert p[..|head|] == head;
    assert p[|head|..|p| - |tail|] == mid;
    assert p[|p| - |tail|..] == tail;
  }

  predicate NoDotOrSlash(s: string) {
    forall k :: 0 <= k < |s| ==> s[k] != '.' && s[k] != '/'
  }

  /** `c` at `i` and nowhere after it: `i` is the last index of `c`. */
  lemma LastIndexAt(s: string, c: char, i: nat)
    requires i < |s| && s[i] == c
    requires forall k :: i < k < |s| ==> s[k] != c
    ensures LastIndex(s, c) == i
  {
  }

  /** No `c` after `i`: the last index of `c` is at most `i`. */
  lemma LastIndexAtMost(s: string, c: char, i: nat)
    requires i < |s|
    requires forall k :: i < k < |s| ==> s[k] != c
    ensures LastIndex(s, c) <= i
  {
  }

  /** The stored name up to the extension: "syllabus/" and then no dot or
      slash, with a dash right after the course slug. */
  lemma StemShape(a: string, b: string, t: string)
    requires NoDotOrSlash(a) && NoDotOrSlash(b) && NoDotOrSlash(t)
    ensures var stem := "syllabus/" + a + "-" + b + "-" + t;
            && stem[8] == '/' && stem[9 + |a|] == '-'
            && forall k :: 8 < k < |stem| ==> stem[k] != '.' && stem[k] != '/'
  {
    var stem := "syllabus/" + a + "-" + b + "-" + t;
    forall k | 8 < k < |stem| ensures stem[k] != '.' && stem[k] != '/' {
      if k < 9 + |a| {
        assert stem[k] == a[k - 9];
      } else if k == 9 + |a| {
      } else if k < 10 + |a| + |b| {
        assert stem[k] == b[k - 10 - |a|];
      } else if k == 10 + |a| + |b| {
      } else {
        assert stem[k] == t[k - 11 - |a| - |b|];
      }
    }
  }

  /** The extension of a stem without dots after its last slash, followed
      by an extension, is that extension. */
  lemma SplitExtAfterStem(stem: string, ext: string, sep: nat)
    requires sep + 1 < |stem| && stem[sep] == '/' && stem[sep + 1] != '.'
    requires forall k :: sep < k < |stem| ==> stem[k] != '.' && stem[k] != '/'
    requires ext != [] ==> ext[0] == '.'
    requires forall k :: 1 <= k < |ext| ==> ext[k] != '.' && ext[k] != '/'
    requires ext == [] || ext[0] != '/'
    ensures SplitExt(stem + ext).1 == ext
  {
    var path := stem + ext;
    forall k | sep < k < |path| ensures path[k] != '/' {
      if k < |stem| {
        assert path[k] == stem[k];
      } else {
        assert path[k] == ext[k - |stem|];
      }
    }
    LastIndexAt(path, '/', sep);
    if ext == [] {
      assert path == stem;
      LastIndexAtMost(path, '.', sep);
    } else {
      forall k | |stem| < k < |path| ensures path[k] != '.' {
        assert path[k] == ext[k - |stem|];
      }
      LastIndexAt(path, '.', |stem|);
      assert path[sep + 1] == stem[sep + 1];
      assert HasStem(path, sep, |stem|);
      assert path[..|stem|] == stem;
    }
  }

  /** The stored file keeps the extension it was uploaded with, as long as
      the slugs and the identifier contain no dots or slashes (slugs and
      UUIDs never do). */
  lemma UploadPathKeepsExtension(courseName: string, schoolName: string, idText: string, filename: string,
                                 slug: string -> string)
    requires NoDotOrSlash(slug(courseName)) && NoDotOrSlash(slug(schoolName)) && NoDotOrSlash(idText)
    ensures SplitExt(UploadPath(courseName, schoolName, idText, filename, slug)).1 == SplitExt(filename).1
  {
    var a := slug(courseName);
    var b := slug(schoolName);
    var t := Take(idText, 6);
    assert NoDotOrSlash(t) by {
      assert forall k :: 0 <= k < |t| ==> t[k] == idText[k];
    }
    StemShape(a, b, t);
    var stem := "syllabus/" + a + "-" + b + "-" + t;
    var ext := SplitExt(filename).1;
    if |a| == 0 {
      assert stem[9] == '-';
    } else {
      assert stem[9] == a[0];
    }
    SplitExtAfterStem(stem, ext, 8);
  }
}
