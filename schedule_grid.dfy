/**
 * The weekly timetable: which registered course, if any, a (day, time slot)
 * cell shows.  The grid's own `timeToMinutes` is the same expression as the
 * conflict checker's, so `TimeToMinutes` serves both.
 */
module ScheduleGrid {
  import opened Js
  import opened CourseModel
  import opened TimeConflict

  /** The slot labels of the grid rows. */
  const TimeSlots: seq<string> :=
    ["09:00", "10:00", "11:00", "12:00", "13:00", "14:00", "15:00", "16:00", "17:00"]

  /** The weekday columns. */
  const Days: seq<string> := ["Monday", "Tuesday", "Wednesday", "Thursday", "Friday"]

  /** `course` is on `day` and the slot lies in its half-open interval
      `[start, end)`. */
  predicate CoversSlot(course: Course, day: string, time: string) {
    course.day == day &&
    AtLeast(TimeToMinutes(time), TimeToMinutes(course.startTime)) &&
    Less(TimeToMinutes(time), TimeToMinutes(course.endTime))
  }

  /** `registered[k]` covers the slot and no earlier course does. */
  predicate FirstCoverAt(registered: seq<Course>, day: string, time: string, k: int) {
    0 <= k < |registered| && CoversSlot(registered[k], day, time) &&
    forall j :: 0 <= j < k ==> !CoversSlot(registered[j], day, time)
  }

  /** `getCourseForSlot(day, time)`: the first registered course covering the
      slot.  The result is absent exactly when no course covers it; a result
      is a registered course that covers the slot (no earlier one does, by
      `GetCourseForSlotFirst`). */
  function GetCourseForSlot(registered: seq<Course>, day: string, time: string): (r: Option<Course>)
    ensures r.None? <==> forall i :: 0 <= i < |registered| ==> !CoversSlot(registered[i], day, time)
    ensures r.Some? ==> r.value in registered && CoversSlot(r.value, day, time)
  {
    if registered == [] then None
    else if CoversSlot(registered[0], day, time) then Some(registered[0])
    else
      var tail := registered[1..];
      assert forall i :: 0 < i < |registered| ==> registered[i] == tail[i - 1];
      GetCourseForSlot(tail, day, time)
  }

  /** The shown course is the first covering one. */
  lemma {:induction false} GetCourseForSlotFirst(registered: seq<Course>, day: string, time: string)
    requires GetCourseForSlot(registered, day, time).Some?
    ensures exists k :: FirstCoverAt(registered, day, time, k) &&
                        registered[k] == GetCourseForSlot(registered, day, time).value
    decreases |registered|
  {
    if CoversSlot(registered[0], day, time) {
      assert FirstCoverAt(registered, day, time, 0);
    } else {
      var tail := registered[1..];
      GetCourseForSlotFirst(tail, day, time);
      var k :| FirstCoverAt(tail, day, time, k) && tail[k] == GetCourseForSlot(tail, day, time).value;
      forall j | 0 <= j < k + 1 ensures !CoversSlot(registered[j], day, time) {
        if j > 0 {
          assert registered[j] == tail[j - 1];
        }
      }
      assert registered[k + 1] == tail[k];
      assert FirstCoverAt(registered, day, time, k + 1);
    }
  }

  /** A shown course is on the cell's day and its interval contains the slot;
      in particular a slot at a course's end time is not occupied by it. */
  lemma ShownCourseCoversSlot(registered: seq<Course>, day: string, time: string)
    requires GetCourseForSlot(registered, day, time).Some?
    ensures var c := GetCourseForSlot(registered, day, time).value;
      c in registered && c.day == day &&
      AtLeast(TimeToMinutes(time), TimeToMinutes(c.startTime)) &&
      Less(TimeToMinutes(time), TimeToMinutes(c.endTime)) &&
      TimeToMinutes(time) != TimeToMinutes(c.endTime)
  {
  }

  /** Two courses covering the same slot are a conflicting pair. */
  lemma CommonSlotMeansConflict(a: Course, b: Course, day: string, time: string)
    requires CoversSlot(a, day, time) && CoversSlot(b, day, time)
    ensures Conflicts(a, b)
  {
  }

  /** In a consistent registered list at most one course covers a slot, so
      the cell shows that course whatever the list order. */
  lemma ConsistentScheduleShowsTheCoveringCourse(registered: seq<Course>, day: string, time: string, i: int)
    requires ValidSchedule(registered)
    requires 0 <= i < |registered| && CoversSlot(registered[i], day, time)
    ensures GetCourseForSlot(registered, day, time) == Some(registered[i])
  {
    var r := GetCourseForSlot(registered, day, time);
    GetCourseForSlotFirst(registered, day, time);
    var k :| FirstCoverAt(registered, day, time, k) && registered[k] == r.value;
    if k < i {
      CommonSlotMeansConflict(registered[k], registered[i], day, time);
      assert false;
    }
  }

  /** A registered course with a proper interval shows in its own start slot
      when the list is consistent. */
  lemma ShownAtItsStart(registered: seq<Course>, i: int)
    requires ValidSchedule(registered)
    requires 0 <= i < |registered|
    requires Less(TimeToMinutes(registered[i].startTime), TimeToMinutes(registered[i].endTime))
    ensures GetCourseForSlot(registered, registered[i].day, registered[i].startTime) == Some(registered[i])
  {
    ConsistentScheduleShowsTheCoveringCourse(registered, registered[i].day, registered[i].startTime, i);
  }
}
