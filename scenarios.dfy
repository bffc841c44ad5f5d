/**
 * Concrete instances drawn from the seed catalog, and multi-step scenarios
 * that chain the store's actions.
 */
module Scenarios {
  import opened Js
  import opened CourseModel
  import opened TimeConflict
  import opened AppContext
  import opened CoursesPage
  import opened ScheduleGrid

  /** Seed course 1. */
  const CS101 := Course(1, "CS101", "Introduction to Programming", "Dr. Sarah Johnson", 3, "Monday", "09:00", "10:30")

  /** Seed course 3. */
  const MATH201 := Course(3, "MATH201", "Calculus I", "Dr. Emily Rodriguez", 3, "Monday", "10:00", "11:30")

  /** Seed course 4. */
  const PHYS101 := Course(4, "PHYS101", "Physics for Engineers", "Prof. David Kim", 4, "Wednesday", "14:00", "16:00")

  /** A clock string with two digit components, in minutes. */
  lemma Clock(s: string, h: string, m: string, minutes: int)
    requires AllDigits(h) && AllDigits(m) && s == h + ":" + m
    requires minutes == DigitsValue(h) * 60 + DigitsValue(m)
    ensures TimeToMinutes(s) == Finite(minutes)
  {
    ClockToMinutes(h, m);
  }

  lemma Clock0900() ensures TimeToMinutes("09:00") == Finite(540) { Clock("09:00", "09", "00", 540); }
  lemma Clock1000() ensures TimeToMinutes("10:00") == Finite(600) { Clock("10:00", "10", "00", 600); }
  lemma Clock1030() ensures TimeToMinutes("10:30") == Finite(630) { Clock("10:30", "10", "30", 630); }
  lemma Clock1100() ensures TimeToMinutes("11:00") == Finite(660) { Clock("11:00", "11", "00", 660); }
  lemma Clock1130() ensures TimeToMinutes("11:30") == Finite(690) { Clock("11:30", "11", "30", 690); }

  /** The clock strings of CS101 and MATH201 in minutes. */
  lemma MondayTimes()
    ensures TimeToMinutes(CS101.startTime) == Finite(540) && TimeToMinutes(CS101.endTime) == Finite(630)
    ensures TimeToMinutes(MATH201.startTime) == Finite(600) && TimeToMinutes(MATH201.endTime) == Finite(690)
  {
    Clock0900();
    Clock1030();
    Clock1000();
    Clock1130();
  }

  /** CS101 (Monday 09:00-10:30) and MATH201 (Monday 10:00-11:30) overlap. */
  lemma SeedOverlap()
    ensures Conflicts(CS101, MATH201) && Conflicts(MATH201, CS101)
  {
    MondayTimes();
  }

  /** With CS101 registered the checker reports CS101 for MATH201. */
  lemma SeedCheck()
    ensures CheckTimeConflict([CS101], MATH201) == ConflictResult(true, Some(CS101))
  {
    SeedOverlap();
  }

  /** The gate refuses MATH201 next to CS101, naming CS101. */
  lemma SeedGate()
    ensures RegisterDecision([CS101], MATH201) == Conflict(CS101)
  {
    SeedCheck();
    assert !HasId([CS101], MATH201.id);
  }

  /** The toast text for that refusal. */
  lemma SeedMessage()
    ensures ConflictMessage(CS101) == "Time conflict with CS101 on Monday"
  {
  }

  /** PHYS101 is on Wednesday, so it conflicts with neither Monday course and
      is registered after them. */
  lemma SeedNoConflict()
    ensures CheckTimeConflict([CS101, MATH201], PHYS101) == ConflictResult(false, None)
    ensures AfterRegister([CS101], PHYS101) == [CS101, PHYS101]
  {
    OtherDaysNeverConflict([CS101, MATH201], PHYS101);
    OtherDaysNeverConflict([CS101], PHYS101);
    assert !HasId([CS101], PHYS101.id);
  }

  /** The grid shows CS101 in the Monday 09:00 and 10:00 rows and nothing in
      the 11:00 row, after it has ended. */
  lemma SeedGrid()
    ensures GetCourseForSlot([CS101], Days[0], TimeSlots[0]) == Some(CS101)
    ensures GetCourseForSlot([CS101], Days[0], TimeSlots[1]) == Some(CS101)
    ensures GetCourseForSlot([CS101], Days[0], TimeSlots[2]) == None
  {
    SeedGridStart();
    SeedGridMiddle();
    SeedGridAfter();
  }

  /** The Monday 09:00 cell. */
  lemma SeedGridStart()
    ensures GetCourseForSlot([CS101], Days[0], TimeSlots[0]) == Some(CS101)
  {
    assert Days[0] == "Monday" && TimeSlots[0] == "09:00";
    MondayTimes();
    assert CoversSlot(CS101, "Monday", "09:00");
  }

  /** The Monday 10:00 cell, inside CS101's interval. */
  lemma SeedGridMiddle()
    ensures GetCourseForSlot([CS101], Days[0], TimeSlots[1]) == Some(CS101)
  {
    assert Days[0] == "Monday" && TimeSlots[1] == "10:00";
    MondayTimes();
    Clock1000();
    assert CoversSlot(CS101, "Monday", "10:00");
  }

  /** The Monday 11:00 cell, after CS101 has ended. */
  lemma SeedGridAfter()
    ensures GetCourseForSlot([CS101], Days[0], TimeSlots[2]) == None
  {
    assert Days[0] == "Monday" && TimeSlots[2] == "11:00";
    MondayTimes();
    Clock1100();
    assert !CoversSlot(CS101, "Monday", "11:00");
  }

  /** Register, log out, log in again as a student: the registered list is
      the one before plus the new course. */
  method RegisterLogoutLogin(app: AppState, course: Course)
    modifies app
    ensures app.registeredCourses == old(app.registeredCourses) + [course]
    ensures app.isAuthenticated && app.userRole == Some("student")
  {
    app.RegisterCourse(course);
    app.Logout();
    app.Login("student");
  }

  method DropRoundTrip(app: AppState, course: Course, freshId: int, requestedAt: string, resolvedAt: string)
    requires !PendingFor(app.dropRequests, course.id)
    requires forall i :: 0 <= i < |app.dropRequests| ==> app.dropRequests[i].id != freshId
    modifies app
    ensures app.savedRegisteredCourses == Some(WithoutId(old(app.savedRegisteredCourses).GetOr([]), course.id))
    ensures app.registeredCourses == app.savedRegisteredCourses.value
    ensures app.dropRequests ==
      old(app.dropRequests) + [DropRequest(freshId, course, "Student", requestedAt, Approved, Some(resolvedAt))]
    ensures app.savedDropRequests == Some(app.dropRequests)
  {
    ghost var saved := app.savedRegisteredCourses.GetOr([]);
    ghost var r1 := WithDropRequest(app.dropRequests, course, freshId, requestedAt);
    ghost var want := app.dropRequests + [DropRequest(freshId, course, "Student", requestedAt, Approved, Some(resolvedAt))];
    FindNewRequest(app.dropRequests, course, freshId, requestedAt);
    RequestThenResolve(app.dropRequests, course, freshId, requestedAt, Approved, resolvedAt);
    assert Resolve(r1, freshId, Approved, resolvedAt) == want;
    assert FindRequest(r1, freshId) == Some(NewRequest(course, freshId, requestedAt));
    app.RequestDrop(course, freshId, requestedAt);
    assert app.dropRequests == r1;
    assert app.savedRegisteredCourses.GetOr([]) == saved;
    app.ApproveDrop(freshId, resolvedAt);
  }

  /** Approving the same request twice leaves the registered lists as one
      approval does. */
  method ApproveTwice(app: AppState, requestId: int, first: string, second: string)
    requires FindRequest(app.dropRequests, requestId).Some?
    modifies app
    ensures app.registeredCourses ==
      WithoutId(old(app.savedRegisteredCourses).GetOr([]), FindRequest(old(app.dropRequests), requestId).value.course.id)
    ensures app.savedRegisteredCourses == Some(app.registeredCourses)
  {
    var courseId := FindRequest(app.dropRequests, requestId).value.course.id;
    ResolveKeepsFind(app.dropRequests, requestId, Approved, first);
    app.ApproveDrop(requestId, first);
    WithoutIdIdempotent(old(app.savedRegisteredCourses).GetOr([]), courseId);
    app.ApproveDrop(requestId, second);
  }
}
