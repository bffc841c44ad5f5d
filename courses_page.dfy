/**
 * The student's Browse Courses page: the search and weekday filter over the
 * catalog, the registration gate in front of the store's `registerCourse`,
 * and the per-card conflict probe used for highlighting.
 */
module CoursesPage {
  import opened Js
  import opened CourseModel
  import opened TimeConflict
  import opened AppContext

  // ---------------------------------------------------------------------
  // Search and day filter
  // ---------------------------------------------------------------------

  /** The lower-cased search term occurs in the lower-cased name, code or
      instructor. */
  predicate MatchesSearch(course: Course, searchTerm: string) {
    var term := ToLower(searchTerm);
    Includes(ToLower(course.courseName), term) ||
    Includes(ToLower(course.courseCode), term) ||
    Includes(ToLower(course.instructor), term)
  }

  /** `filterDay === 'All' || course.day === filterDay`. */
  predicate MatchesDay(course: Course, filterDay: string) {
    filterDay == "All" || course.day == filterDay
  }

  predicate Matches(course: Course, searchTerm: string, filterDay: string) {
    MatchesSearch(course, searchTerm) && MatchesDay(course, filterDay)
  }

  /** `filteredCourses`: the catalog entries matching both the search term
      and the day, each as often as in the catalog, in catalog order. */
  function FilteredCourses(courseList: seq<Course>, searchTerm: string, filterDay: string): (r: seq<Course>)
    ensures IsSubsequence(r, courseList)
    ensures forall c :: c in r <==> c in courseList && Matches(c, searchTerm, filterDay)
    ensures forall c :: multiset(r)[c] == if Matches(c, searchTerm, filterDay) then multiset(courseList)[c] else 0
  {
    if courseList == [] then []
    else
      var rest := FilteredCourses(courseList[1..], searchTerm, filterDay);
      assert [courseList[0]] + courseList[1..] == courseList;
      assert multiset(courseList) == multiset([courseList[0]]) + multiset(courseList[1..]);
      if Matches(courseList[0], searchTerm, filterDay) then
        SubsequenceCons(courseList[0], rest, courseList[1..]);
        [courseList[0]] + rest
      else
        SubsequenceSkip(courseList[0], rest, courseList[1..]);
        rest
  }

  /** With a day other than `'All'` every course shown is on that day, and
      every course shown contains the lower-cased term in its name, code or
      instructor. */
  lemma FilteredCoursesShowOnlyMatches(courseList: seq<Course>, searchTerm: string, filterDay: string)
    ensures forall i :: 0 <= i < |FilteredCourses(courseList, searchTerm, filterDay)| ==>
      var c := FilteredCourses(courseList, searchTerm, filterDay)[i];
      (filterDay != "All" ==> c.day == filterDay) && MatchesSearch(c, searchTerm)
  {
    var r := FilteredCourses(courseList, searchTerm, filterDay);
    forall i | 0 <= i < |r| ensures (filterDay != "All" ==> r[i].day == filterDay) && MatchesSearch(r[i], searchTerm) {
      assert r[i] in r;
    }
  }

  /** The page's initial state, an empty search and `'All'`, shows the
      whole catalog. */
  lemma {:induction false} InitialFilterShowsAll(courseList: seq<Course>)
    ensures FilteredCourses(courseList, "", "All") == courseList
    decreases |courseList|
  {
    if courseList != [] {
      InitialFilterShowsAll(courseList[1..]);
      EmptySearchMatches(courseList[0]);
      assert [courseList[0]] + courseList[1..] == courseList;
    }
  }

  /** Every course matches the initial filter. */
  lemma EmptySearchMatches(c: Course)
    ensures Matches(c, "", "All")
  {
    IncludesEmpty(ToLower(c.courseName));
    assert ToLower("") == [];
  }

  /** Searching for a course's own code with `'All'` shows that course. */
  lemma SearchByOwnCodeShowsCourse(courseList: seq<Course>, c: Course)
    requires c in courseList
    ensures c in FilteredCourses(courseList, c.courseCode, "All")
  {
    var code := ToLower(c.courseCode);
    IncludesFactor(code, 0, |code|);
    assert code[0..|code|] == code;
  }

  // ---------------------------------------------------------------------
  // Registration gate
  // ---------------------------------------------------------------------

  /** What `handleRegister` does with a course. */
  datatype RegisterOutcome = AlreadyRegistered | Conflict(conflictingCourse: Course) | Registered

  /** The gate: a course whose id is registered is refused; then one that
      `checkTimeConflict` reports is refused with the course it conflicts
      with; only the rest are registered. */
  function RegisterDecision(registered: seq<Course>, course: Course): (r: RegisterOutcome)
    ensures r == AlreadyRegistered <==> HasId(registered, course.id)
    ensures r.Conflict? <==> !HasId(registered, course.id) && CheckTimeConflict(registered, course).hasConflict
    ensures r.Conflict? ==> r.conflictingCourse in registered && Conflicts(r.conflictingCourse, course)
    ensures r == Registered <==>
      !HasId(registered, course.id) && forall i :: 0 <= i < |registered| ==> !Conflicts(registered[i], course)
  {
    if HasId(registered, course.id) then AlreadyRegistered
    else
      var check := CheckTimeConflict(registered, course);
      if check.hasConflict then Conflict(check.conflictingCourse.value)
      else Registered
  }

  /** A refusal for a conflict names the earliest registered course that
      conflicts. */
  lemma ConflictNamesFirst(registered: seq<Course>, course: Course)
    requires RegisterDecision(registered, course).Conflict?
    ensures exists k :: FirstConflictAt(registered, course, k) &&
                        registered[k] == RegisterDecision(registered, course).conflictingCourse
  {
    CheckTimeConflictFirst(registered, course);
  }

  /** The registered list after `handleRegister(course)`: the course is
      appended exactly when its id is new and no registered course conflicts
      with it; otherwise the list is unchanged. */
  function AfterRegister(registered: seq<Course>, course: Course): (r: seq<Course>)
    ensures r == registered + [course] <==>
      !HasId(registered, course.id) && forall i :: 0 <= i < |registered| ==> !Conflicts(registered[i], course)
    ensures r != registered + [course] ==> r == registered
  {
    if RegisterDecision(registered, course) == Registered then registered + [course] else registered
  }

  /** The gate's purpose: registering through it keeps ids unique and the
      schedule free of same-day overlapping pairs. */
  lemma AfterRegisterKeepsValidSchedule(registered: seq<Course>, course: Course)
    requires ValidSchedule(registered)
    ensures ValidSchedule(AfterRegister(registered, course))
  {
    if RegisterDecision(registered, course) == Registered {
      var s := registered + [course];
      forall i, j | 0 <= i < j < |s| ensures s[i].id != s[j].id && !Conflicts(s[i], s[j]) {
        assert s[i] == registered[i];
        if j < |registered| {
          assert s[j] == registered[j];
        } else {
          assert s[j] == course;
          assert registered[i].id != course.id;
        }
      }
    }
  }

  /** A sequence of registration attempts, each through the gate. */
  function RegisterAll(registered: seq<Course>, attempts: seq<Course>): seq<Course>
    decreases |attempts|
  {
    if attempts == [] then registered
    else RegisterAll(AfterRegister(registered, attempts[0]), attempts[1..])
  }

  /** However many courses a student tries to register, the list stays
      consistent. */
  lemma {:induction false} RegisterAllKeepsValidSchedule(registered: seq<Course>, attempts: seq<Course>)
    requires ValidSchedule(registered)
    ensures ValidSchedule(RegisterAll(registered, attempts))
    decreases |attempts|
  {
    if attempts != [] {
      AfterRegisterKeepsValidSchedule(registered, attempts[0]);
      RegisterAllKeepsValidSchedule(AfterRegister(registered, attempts[0]), attempts[1..]);
    }
  }

  /** Attempts only ever add courses at the end: the earlier list is a prefix
      of the result. */
  lemma {:induction false} RegisterAllExtends(registered: seq<Course>, attempts: seq<Course>)
    ensures |registered| <= |RegisterAll(registered, attempts)|
    ensures RegisterAll(registered, attempts)[..|registered|] == registered
    decreases |attempts|
  {
    if attempts != [] {
      var next := AfterRegister(registered, attempts[0]);
      RegisterAllExtends(next, attempts[1..]);
      assert next[..|registered|] == registered;
    }
  }

  /** The highlighting probe `hasConflict(course)`: false for a registered
      id, otherwise what `checkTimeConflict` reports. */
  function HasConflictProbe(registered: seq<Course>, course: Course): (r: bool)
    ensures r <==> !HasId(registered, course.id) && exists i :: 0 <= i < |registered| && Conflicts(registered[i], course)
  {
    if HasId(registered, course.id) then false
    else CheckTimeConflict(registered, course).hasConflict
  }

  /** A card is highlighted exactly when the gate would refuse it for a
      conflict, so an unregistered course is registered exactly when it is
      not highlighted. */
  lemma ProbeAgreesWithGate(registered: seq<Course>, course: Course)
    ensures HasConflictProbe(registered, course) <==> RegisterDecision(registered, course).Conflict?
    ensures !HasId(registered, course.id) ==>
      (AfterRegister(registered, course) == registered + [course] <==> !HasConflictProbe(registered, course))
  {
    if !HasId(registered, course.id) && HasConflictProbe(registered, course) {
      assert |AfterRegister(registered, course)| != |registered + [course]|;
    }
  }

  /** The toast text for a conflict. */
  function ConflictMessage(c: Course): string {
    "Time conflict with " + c.courseCode + " on " + c.day
  }

  /** `handleRegister(course)` against the store: on a refusal only the toast
      changes; otherwise `registerCourse` runs once.  The registered list
      becomes `AfterRegister`, so a consistent list stays consistent. */
  method HandleRegister(app: AppState, course: Course)
    modifies app`registeredCourses, app`savedRegisteredCourses, app`toast
    ensures app.registeredCourses == AfterRegister(old(app.registeredCourses), course)
    ensures old(RegisterDecision(app.registeredCourses, course)) == AlreadyRegistered ==>
      app.savedRegisteredCourses == old(app.savedRegisteredCourses) &&
      app.toast == Toast(true, "You are already registered for this course", "error")
    ensures old(RegisterDecision(app.registeredCourses, course)).Conflict? ==>
      app.savedRegisteredCourses == old(app.savedRegisteredCourses) &&
      app.toast == Toast(true, ConflictMessage(old(RegisterDecision(app.registeredCourses, course)).conflictingCourse), "error")
    ensures old(RegisterDecision(app.registeredCourses, course)) == Registered ==>
      app.savedRegisteredCourses == Some(app.registeredCourses) &&
      app.toast == Toast(true, "Course registered successfully", "success")
    ensures old(ValidSchedule(app.registeredCourses)) ==> ValidSchedule(app.registeredCourses)
  {
    if ValidSchedule(app.registeredCourses) {
      AfterRegisterKeepsValidSchedule(app.registeredCourses, course);
    }
    if HasId(app.registeredCourses, course.id) {
      app.ShowToast("You are already registered for this course", "error");
      return;
    }
    var check := CheckTimeConflict(app.registeredCourses, course);
    if check.hasConflict {
      app.ShowToast(ConflictMessage(check.conflictingCourse.value), "error");
      return;
    }
    app.RegisterCourse(course);
  }
}
