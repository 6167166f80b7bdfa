/** What a student may see (`dashboard_view` and `course_detail_view`):
    the courses of their own school and those of any equivalence group
    their school belongs to, and, for one such course, its roster with
    surnames and student codes masked. */
module Visibility {
  import opened Base
  import opened Text
  import opened Domain
  import opened Matching

  /** A course is visible from `school` when it belongs to that school or
      to a group whose schools include it. */
  predicate Visible(st: Store, school: SchoolId, c: CourseId)
    requires c in st.courses
  {
    || st.courses[c].school == school
    || (st.courses[c].group.Some? && st.courses[c].group.value < |st.groups|
        && school in st.groups[st.courses[c].group.value].schools)
  }

  /** The courses visible from `school`. */
  function VisibleCourses(st: Store, school: SchoolId): (r: set<CourseId>)
    ensures forall c :: c in r <==> c in st.courses && Visible(st, school, c)
  {
    set c | c in st.courses && Visible(st, school, c)
  }

  /** `xs` backwards. */
  function Reverse(xs: seq<nat>): (r: seq<nat>)
    ensures |r| == |xs|
    ensures forall i :: 0 <= i < |xs| ==> r[i] == xs[|xs| - 1 - i]
  {
    seq(|xs|, i requires 0 <= i < |xs| => xs[|xs| - 1 - i])
  }

  /** `r` is strictly decreasing. */
  predicate Decreasing(r: seq<nat>) {
    forall i, j :: 0 <= i < j < |r| ==> r[i] > r[j]
  }

  /** The elements of `s`, largest first: newest first, since numbers
      follow creation order. */
  function Descending(s: set<nat>): (r: seq<nat>)
    ensures forall x :: x in s <==> x in r
    ensures Decreasing(r)
  {
    ReverseKeepsMembers(Sorted(s));
    ReverseOfIncreasing(Sorted(s));
    Reverse(Sorted(s))
  }

  /** Reversing keeps the elements. */
  lemma ReverseKeepsMembers(xs: seq<nat>)
    ensures forall x :: x in xs <==> x in Reverse(xs)
  {
    var r := Reverse(xs);
    forall x | x in xs ensures x in r {
      var i :| 0 <= i < |xs| && xs[i] == x;
      assert r[|xs| - 1 - i] == x;
    }
    forall x | x in r ensures x in xs {
      var i :| 0 <= i < |r| && r[i] == x;
      assert xs[|xs| - 1 - i] == x;
    }
  }

  /** An increasing sequence reversed is decreasing. */
  lemma ReverseOfIncreasing(xs: seq<nat>)
    requires Increasing(xs)
    ensures Decreasing(Reverse(xs))
  {
    var r := Reverse(xs);
    forall i, j | 0 <= i < j < |r| ensures r[i] > r[j] {
      assert r[i] == xs[|xs| - 1 - i] && r[j] == xs[|xs| - 1 - j];
    }
  }

  /** A course card of the dashboard: whether the student is enrolled and
      whether the course comes from another school through a group. */
  datatype Card = Card(course: CourseId, enrolled: bool, equivalent: bool)

  function CardOf(st: Store, u: UserId, school: SchoolId, c: CourseId): (k: Card)
    requires c in st.courses
    ensures k.course == c
    ensures k.enrolled <==> IsEnrolled(st, u, c)
    ensures k.equivalent <==> st.courses[c].school != school
  {
    Card(c, IsEnrolled(st, u, c), st.courses[c].school != school)
  }

  function Cards(st: Store, u: UserId, school: SchoolId, ids: seq<CourseId>): (r: seq<Card>)
    requires forall i :: 0 <= i < |ids| ==> ids[i] in st.courses
    ensures |r| == |ids|
    ensures forall i :: 0 <= i < |ids| ==> r[i] == CardOf(st, u, school, ids[i])
  {
    seq(|ids|, i requires 0 <= i < |ids| => CardOf(st, u, school, ids[i]))
  }

  /** The visible courses the student is enrolled in. */
  function EnrolledVisible(st: Store, u: UserId, school: SchoolId): (r: set<CourseId>)
    ensures forall c :: c in r <==> c in VisibleCourses(st, school) && IsEnrolled(st, u, c)
  {
    set c | c in VisibleCourses(st, school) && IsEnrolled(st, u, c)
  }

  /** `dashboard_view`: a student with an incomplete profile is sent to
      onboarding (`None`); otherwise the visible courses, those the
      student is enrolled in first, each part newest first. */
  function Dashboard(st: Store, u: UserId): (r: Option<seq<Card>>)
    requires u in st.users
    ensures r.None? <==> !ProfileComplete(st.users[u])
  {
    var user := st.users[u];
    if !ProfileComplete(user) then None
    else
      var school := user.school.value;
      DashboardIdsVisible(st, u, school);
      Some(Cards(st, u, school, DashboardIds(st, u, school)))
  }

  /** The course numbers the dashboard shows, in order. */
  function DashboardIds(st: Store, u: UserId, school: SchoolId): (ids: seq<CourseId>)
    ensures forall c :: c in ids <==> c in VisibleCourses(st, school)
  {
    var mine := EnrolledVisible(st, u, school);
    Descending(mine) + Descending(VisibleCourses(st, school) - mine)
  }

  /** Every dashboard id is a visible course. */
  lemma DashboardIdsVisible(st: Store, u: UserId, school: SchoolId)
    ensures var ids := DashboardIds(st, u, school);
            forall i :: 0 <= i < |ids| ==> ids[i] in VisibleCourses(st, school)
  {
    var ids := DashboardIds(st, u, school);
    forall i | 0 <= i < |ids| ensures ids[i] in VisibleCourses(st, school) {
      assert ids[i] in ids;
    }
  }

  /** The dashboard's cards are those of `DashboardIds`. */
  lemma DashboardCards(st: Store, u: UserId)
    requires u in st.users && ProfileComplete(st.users[u])
    ensures var school := st.users[u].school.value;
            var ids := DashboardIds(st, u, school);
            && (forall i :: 0 <= i < |ids| ==> ids[i] in st.courses)
            && Dashboard(st, u).value == Cards(st, u, school, ids)
  {
  }

  /** The dashboard lists exactly the visible courses, with the enrolled
      and equivalent flags of each. */
  lemma DashboardListsVisibleCourses(st: Store, u: UserId)
    requires u in st.users && ProfileComplete(st.users[u])
    ensures var cards := Dashboard(st, u).value;
            var school := st.users[u].school.value;
            && (forall c :: (exists i :: 0 <= i < |cards| && cards[i].course == c) <==>
                              c in st.courses && Visible(st, school, c))
            && (forall i :: 0 <= i < |cards| ==>
                  && cards[i].course in st.courses
                  && (cards[i].enrolled <==> IsEnrolled(st, u, cards[i].course))
                  && (cards[i].equivalent <==> st.courses[cards[i].course].school != school))
  {
    DashboardCoversVisible(st, u);
    DashboardCards(st, u);
  }

  /** A course has a dashboard card exactly when it is visible. */
  lemma DashboardCoversVisible(st: Store, u: UserId)
    requires u in st.users && ProfileComplete(st.users[u])
    ensures var cards := Dashboard(st, u).value;
            var school := st.users[u].school.value;
            forall c :: (exists i :: 0 <= i < |cards| && cards[i].course == c) <==>
                          c in st.courses && Visible(st, school, c)
  {
    var cards := Dashboard(st, u).value;
    var school := st.users[u].school.value;
    forall c ensures (exists i :: 0 <= i < |cards| && cards[i].course == c) <==>
                     c in st.courses && Visible(st, school, c)
    {
      if c in st.courses && Visible(st, school, c) {
        VisibleCourseHasCard(st, u, c);
      }
      if exists i :: 0 <= i < |cards| && cards[i].course == c {
        var i :| 0 <= i < |cards| && cards[i].course == c;
        CardIsVisible(st, u, i);
      }
    }
  }

  lemma VisibleCourseHasCard(st: Store, u: UserId, c: CourseId)
    requires u in st.users && ProfileComplete(st.users[u])
    requires c in st.courses && Visible(st, st.users[u].school.value, c)
    ensures var cards := Dashboard(st, u).value;
            exists i :: 0 <= i < |cards| && cards[i].course == c
  {
    var school := st.users[u].school.value;
    var ids := DashboardIds(st, u, school);
    assert c in ids by {
      assert c in VisibleCourses(st, school);
    }
    var i :| 0 <= i < |ids| && ids[i] == c;
    assert Dashboard(st, u).value[i].course == c by {
      DashboardCards(st, u);
    }
  }

  lemma CardIsVisible(st: Store, u: UserId, i: nat)
    requires u in st.users && ProfileComplete(st.users[u])
    requires i < |Dashboard(st, u).value|
    ensures var c := Dashboard(st, u).value[i].course;
            c in st.courses && Visible(st, st.users[u].school.value, c)
  {
    DashboardCards(st, u);
    DashboardIdsVisible(st, u, st.users[u].school.value);
  }

  /** The front part of the dashboard ids: courses the student is
      enrolled in. */
  lemma DashboardIdFront(st: Store, u: UserId, school: SchoolId, i: nat)
    requires i < |Descending(EnrolledVisible(st, u, school))|
    ensures i < |DashboardIds(st, u, school)|
    ensures DashboardIds(st, u, school)[i] == Descending(EnrolledVisible(st, u, school))[i]
    ensures IsEnrolled(st, u, DashboardIds(st, u, school)[i])
  {
    var a := Descending(EnrolledVisible(st, u, school));
    assert a[i] in a;
  }

  /** The back part of the dashboard ids: visible courses the student is
      not enrolled in. */
  lemma DashboardIdBack(st: Store, u: UserId, school: SchoolId, i: nat)
    requires |Descending(EnrolledVisible(st, u, school))| <= i < |DashboardIds(st, u, school)|
    ensures var mine := EnrolledVisible(st, u, school);
            DashboardIds(st, u, school)[i] == Descending(VisibleCourses(st, school) - mine)[i - |Descending(mine)|]
    ensures !IsEnrolled(st, u, DashboardIds(st, u, school)[i])
  {
    var mine := EnrolledVisible(st, u, school);
    var b := Descending(VisibleCourses(st, school) - mine);
    var k := i - |Descending(mine)|;
    assert DashboardIds(st, u, school)[i] == b[k];
    assert b[k] in VisibleCourses(st, school) - mine by {
      assert b[k] in b;
    }
  }

  /** The order of two dashboard ids. */
  lemma DashboardIdPairOrder(st: Store, u: UserId, school: SchoolId, i: nat, j: nat)
    requires i < j < |DashboardIds(st, u, school)|
    ensures var ids := DashboardIds(st, u, school);
            && (IsEnrolled(st, u, ids[j]) ==> IsEnrolled(st, u, ids[i]))
            && (IsEnrolled(st, u, ids[i]) == IsEnrolled(st, u, ids[j]) ==> ids[i] > ids[j])
  {
    var n := |Descending(EnrolledVisible(st, u, school))|;
    if j < n {
      DashboardIdFront(st, u, school, i);
      DashboardIdFront(st, u, school, j);
    } else if i < n {
      DashboardIdFront(st, u, school, i);
      DashboardIdBack(st, u, school, j);
    } else {
      DashboardIdBack(st, u, school, i);
      DashboardIdBack(st, u, school, j);
    }
  }

  /** The order of the dashboard ids: enrolled courses first, newest
      first within each part. */
  lemma DashboardIdsOrder(st: Store, u: UserId, school: SchoolId)
    ensures var ids := DashboardIds(st, u, school);
            forall i, j :: 0 <= i < j < |ids| ==>
              && ids[i] in st.courses && ids[j] in st.courses
              && (IsEnrolled(st, u, ids[j]) ==> IsEnrolled(st, u, ids[i]))
              && (IsEnrolled(st, u, ids[i]) == IsEnrolled(st, u, ids[j]) ==> ids[i] > ids[j])
  {
    var ids := DashboardIds(st, u, school);
    DashboardIdsVisible(st, u, school);
    forall i, j | 0 <= i < j < |ids|
      ensures IsEnrolled(st, u, ids[j]) ==> IsEnrolled(st, u, ids[i])
      ensures IsEnrolled(st, u, ids[i]) == IsEnrolled(st, u, ids[j]) ==> ids[i] > ids[j]
    {
      DashboardIdPairOrder(st, u, school, i, j);
    }
  }

  /** The enrolled courses come first on the dashboard, and within each
      part the newest course comes first. */
  lemma DashboardOrder(st: Store, u: UserId)
    requires u in st.users && ProfileComplete(st.users[u])
    ensures var cards := Dashboard(st, u).value;
            forall i, j :: 0 <= i < j < |cards| ==>
              && (cards[j].enrolled ==> cards[i].enrolled)
              && (cards[i].enrolled == cards[j].enrolled ==> cards[i].course > cards[j].course)
  {
    DashboardCards(st, u);
    DashboardIdsOrder(st, u, st.users[u].school.value);
  }

  /** What `course_detail_view` answers. */
  datatype Row = Row(
    enrollment: EnrollmentId,
    user: UserId,
    firstName: string,
    surname: string,        // masked
    cui: string,            // masked
    schoolName: string,
    isDelegate: bool,
    hasDocument: bool,
    whatsApp: Option<string>,
    isMine: bool
  )

  datatype Detail =
    | ToOnboarding
    | NotFound
    | Denied
    | Page(course: CourseId, rows: seq<Row>, enrolled: bool, isDelegate: bool)

  /** The surname shown: its first letter followed by four stars, or four
      stars for an empty surname. */
  function MaskSurname(last: string): (r: string)
    ensures |r| <= 5 && EndsWith(r, "****")
    ensures last != [] ==> r == [last[0]] + "****"
  {
    if last == [] then "****" else [last[0]] + "****"
  }

  /** The student code shown: four stars and its last four characters, or
      four stars alone for a code shorter than four. */
  function MaskCui(cui: string): (r: string)
    ensures |cui| < 4 ==> r == "****"
    ensures |cui| >= 4 ==> |r| == 8 && r[..4] == "****" && r[4..] == cui[|cui| - 4..]
  {
    if |cui| >= 4 then "****" + cui[|cui| - 4..] else "****"
  }

  /** The prefix of a WhatsApp link to a Peruvian number. */
  const WhatsAppPrefix: string := "https://wa.me/51"

  /** The WhatsApp link of a phone number: none without a number,
      otherwise the prefix followed by the number's digits alone. */
  function WhatsAppLink(phone: string): (r: Option<string>)
    ensures r.None? <==> phone == []
    ensures r.Some? ==> |r.value| >= |WhatsAppPrefix| && r.value[..|WhatsAppPrefix|] == WhatsAppPrefix
    ensures r.Some? ==> r.value[|WhatsAppPrefix|..] == DigitsOf(phone)
  {
    if phone == [] then None else Some(WhatsAppPrefix + DigitsOf(phone))
  }

  /** Masking reveals nothing beyond its window: surnames with the same
      first letter, and codes with the same last four characters, look the
      same. */
  lemma MasksHideTheRest(a: string, b: string)
    ensures a != [] && b != [] && a[0] == b[0] ==> MaskSurname(a) == MaskSurname(b)
    ensures |a| >= 4 && |b| >= 4 && a[|a| - 4..] == b[|b| - 4..] ==> MaskCui(a) == MaskCui(b)
  {
  }

  /** Separators in a phone number do not change its link, and a link is
      never built from anything but digits. */
  lemma WhatsAppLinkIgnoresSeparators(a: string, b: string)
    ensures WhatsAppLink(a + " " + b) == Some(WhatsAppPrefix + (DigitsOf(a) + DigitsOf(b)))
  {
    var p := a + " " + b;
    assert DigitsOf(p) == DigitsOf(a) + DigitsOf(b) by {
      DigitsOfAppend(a + " ", b);
      DigitsOfAppend(a, " ");
      assert DigitsOf(" ") == [] by {
        assert " "[1..] == [];
      }
      assert DigitsOf(a) + [] == DigitsOf(a);
    }
    assert p != [] by {
      assert |p| == |a| + 1 + |b|;
    }
  }

  /** Enrollment `e` refers to an existing student and course, and the
      student's school exists. */
  predicate RowReady(st: Store, e: EnrollmentId) {
    && e in st.enrollments
    && st.enrollments[e].user in st.users
    && st.enrollments[e].course in st.courses
    && (st.users[st.enrollments[e].user].school.Some? ==> st.users[st.enrollments[e].user].school.value in st.schools)
  }

  lemma ValidRowsReady(st: Store, c: CourseId)
    requires Valid(st)
    ensures forall e :: e in MembersOf(st, c) ==> RowReady(st, e)
  {
  }

  /** The roster row of enrollment `e`, as seen by student `viewer`. */
  function RowOf(st: Store, e: EnrollmentId, viewer: UserId): (r: Row)
    requires RowReady(st, e)
    ensures r.enrollment == e && r.user == st.enrollments[e].user
    ensures r.isMine <==> st.enrollments[e].user == viewer
    ensures r.isDelegate <==> st.enrollments[e].user == st.courses[st.enrollments[e].course].creator
  {
    var enr := st.enrollments[e];
    var u := st.users[enr.user];
    Row(
      enrollment := e,
      user := enr.user,
      firstName := u.firstName,
      surname := MaskSurname(u.lastName),
      cui := MaskCui(u.cui),
      schoolName := if u.school.Some? then st.schools[u.school.value] else "Sin Escuela",
      isDelegate := enr.user == st.courses[enr.course].creator,
      hasDocument := enr.hasDocument,
      whatsApp := WhatsAppLink(u.phone),
      isMine := enr.user == viewer
    )
  }

  /** The rows of the enrollments `ids`, in the same order. */
  function RowsOf(st: Store, ids: seq<nat>, viewer: UserId): (r: seq<Row>)
    requires forall i :: 0 <= i < |ids| ==> RowReady(st, ids[i])
    ensures |r| == |ids|
    ensures forall i :: 0 <= i < |r| ==> r[i] == RowOf(st, ids[i], viewer)
  {
    seq(|ids|, i requires 0 <= i < |ids| => RowOf(st, ids[i], viewer))
  }

  /** The roster: one row per enrollment of the course, oldest first. */
  function Roster(st: Store, c: CourseId, viewer: UserId): (r: seq<Row>)
    requires forall e :: e in MembersOf(st, c) ==> RowReady(st, e)
    ensures var ids := Sorted(MembersOf(st, c));
            && |r| == |ids|
            && forall i :: 0 <= i < |r| ==> RowReady(st, ids[i]) && r[i] == RowOf(st, ids[i], viewer)
  {
    var ids := Sorted(MembersOf(st, c));
    assert forall i :: 0 <= i < |ids| ==> RowReady(st, ids[i]) by {
      forall i | 0 <= i < |ids| ensures RowReady(st, ids[i]) {
        assert ids[i] in MembersOf(st, c);
      }
    }
    RowsOf(st, ids, viewer)
  }

  /** `course_detail_view`: a student without school is sent to
      onboarding, a missing course is not found, an invisible course is
      refused, and a visible one shows its roster. */
  function CourseDetail(st: Store, u: UserId, c: CourseId): (r: Detail)
    requires Valid(st) && u in st.users
    ensures r == ToOnboarding <==> st.users[u].school.None?
    ensures r.Page? <==> st.users[u].school.Some? && c in st.courses && Visible(st, st.users[u].school.value, c)
    ensures r.Page? ==> r.course == c && r.enrolled == IsEnrolled(st, u, c)
                        && (r.isDelegate <==> st.courses[c].creator == u)
  {
    if st.users[u].school.None? then ToOnboarding
    else if c !in st.courses then NotFound
    else if !Visible(st, st.users[u].school.value, c) then Denied
    else
      ValidRowsReady(st, c);
      Page(c, Roster(st, c, u), IsEnrolled(st, u, c), st.courses[c].creator == u)
  }

  /** For a student with a complete profile, the detail page opens exactly
      for the courses the dashboard lists. */
  lemma DetailAgreesWithDashboard(st: Store, u: UserId, c: CourseId)
    requires Valid(st) && u in st.users && ProfileComplete(st.users[u])
    ensures CourseDetail(st, u, c).Page? <==>
            exists i :: 0 <= i < |Dashboard(st, u).value| && Dashboard(st, u).value[i].course == c
  {
    DashboardListsVisibleCourses(st, u);
  }

  /** The roster lists each member once, oldest enrollment first, and a
      row is marked as the viewer's exactly when it is. */
  lemma RosterListsMembers(st: Store, c: CourseId, viewer: UserId)
    requires forall e :: e in MembersOf(st, c) ==> RowReady(st, e)
    ensures var rows := Roster(st, c, viewer);
            && (forall e :: e in MembersOf(st, c) <==> exists i :: 0 <= i < |rows| && rows[i].enrollment == e)
            && (forall i, j :: 0 <= i < j < |rows| ==> rows[i].enrollment < rows[j].enrollment)
            && (forall i :: 0 <= i < |rows| ==> (rows[i].isMine <==> rows[i].user == viewer))
  {
    RosterCoversMembers(st, c, viewer);
  }

  /** The roster's rows are exactly the course's enrollments. */
  lemma RosterCoversMembers(st: Store, c: CourseId, viewer: UserId)
    requires forall e :: e in MembersOf(st, c) ==> RowReady(st, e)
    ensures var rows := Roster(st, c, viewer);
            forall e :: e in MembersOf(st, c) <==> exists i :: 0 <= i < |rows| && rows[i].enrollment == e
  {
    var rows := Roster(st, c, viewer);
    var ids := Sorted(MembersOf(st, c));
    forall e | e in MembersOf(st, c) ensures exists i :: 0 <= i < |rows| && rows[i].enrollment == e {
      var i :| 0 <= i < |ids| && ids[i] == e;
      assert rows[i].enrollment == e;
    }
    forall i | 0 <= i < |rows| ensures rows[i].enrollment in MembersOf(st, c) {
      assert ids[i] in ids;
    }
  }

  /** Exactly one roster row is the delegate's: the delegate is enrolled,
      and only once. */
  lemma RosterHasOneDelegate(st: Store, c: CourseId, viewer: UserId)
    requires forall e :: e in MembersOf(st, c) ==> RowReady(st, e)
    requires UniqueEnrollments(st) && c in st.courses && IsEnrolled(st, st.courses[c].creator, c)
    ensures var rows := Roster(st, c, viewer);
            && (exists i :: 0 <= i < |rows| && rows[i].isDelegate)
            && (forall i, j :: 0 <= i < |rows| && 0 <= j < |rows| && rows[i].isDelegate && rows[j].isDelegate ==> i == j)
  {
    var rows := Roster(st, c, viewer);
    RosterHasDelegate(st, c, viewer);
    forall i, j | 0 <= i < |rows| && 0 <= j < |rows| && rows[i].isDelegate && rows[j].isDelegate
      ensures i == j
    {
      RosterDelegateRowsMeet(st, c, viewer, i, j);
    }
  }

  lemma RosterHasDelegate(st: Store, c: CourseId, viewer: UserId)
    requires forall e :: e in MembersOf(st, c) ==> RowReady(st, e)
    requires c in st.courses && IsEnrolled(st, st.courses[c].creator, c)
    ensures var rows := Roster(st, c, viewer);
            exists i :: 0 <= i < |rows| && rows[i].isDelegate
  {
    var rows := Roster(st, c, viewer);
    var ids := Sorted(MembersOf(st, c));
    var d :| d in st.enrollments && st.enrollments[d].user == st.courses[c].creator && st.enrollments[d].course == c;
    assert d in MembersOf(st, c);
    var k :| 0 <= k < |ids| && ids[k] == d;
    assert rows[k].isDelegate;
  }

  /** Two delegate rows are the same row. */
  lemma RosterDelegateRowsMeet(st: Store, c: CourseId, viewer: UserId, i: nat, j: nat)
    requires forall e :: e in MembersOf(st, c) ==> RowReady(st, e)
    requires UniqueEnrollments(st) && c in st.courses
    requires var rows := Roster(st, c, viewer);
             i < |rows| && j < |rows| && rows[i].isDelegate && rows[j].isDelegate
    ensures i == j
  {
    var ids := Sorted(MembersOf(st, c));
    assert ids[i] in ids && ids[j] in ids;
    assert ids[i] in MembersOf(st, c) && ids[j] in MembersOf(st, c);
    assert st.enrollments[ids[i]].user == st.enrollments[ids[j]].user;
    assert ids[i] == ids[j];
  }

  /** The detail page needs only a school: a student who has not given
      a student code or phone number cannot use the dashboard but can
      still open a visible course. */
  lemma DetailNeedsOnlySchool(st: Store, u: UserId, c: CourseId)
    requires Valid(st) && u in st.users
    requires st.users[u].school.Some? && !ProfileComplete(st.users[u])
    requires c in st.courses && Visible(st, st.users[u].school.value, c)
    ensures Dashboard(st, u).None? && CourseDetail(st, u, c).Page?
  {
  }

  /** Matching never hides a course: groups only gain schools and the
      other courses keep their group, so whatever a school saw before a run
      of the matcher it still sees, the placed course included when it had
      no group yet. */
  lemma ProcessKeepsVisibility(st: Store, c: CourseId, m: Models, x: CourseId, school: SchoolId)
    requires c in st.courses && x in st.courses && Visible(st, school, x)
    requires x != c || st.courses[c].group.None?
    ensures x in Process(st, c, m).store.courses && Visible(Process(st, c, m).store, school, x)
  {
    ProcessFrame(st, c, m);
  }

  /** After a run of the matcher the placed course is in a group unless
      the comparison raised, in which case it keeps the group it had; a
      grouped course is visible from every school of its group. */
  lemma JoinedCourseVisibleToGroup(st: Store, c: CourseId, m: Models, school: SchoolId)
    requires Invariants(st) && c in st.courses && !CannotStart(st.courses[c])
    ensures var o := Process(st, c, m);
            var r := o.store;
            && c in r.courses
            && (r.courses[c].group.Some? <==> !o.raised || st.courses[c].group.Some?)
            && (r.courses[c].group.Some? ==>
                  && r.courses[c].group.value < |r.groups|
                  && (school in r.groups[r.courses[c].group.value].schools ==> Visible(r, school, c))
                  && Visible(r, r.courses[c].school, c))
  {
    ProcessKeepsInvariants(st, c, m);
    PreparedStoreFrame(st, c, m);
  }
}
