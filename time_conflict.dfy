/**
 * The interval-overlap conflict checker: `"HH:MM"` to minutes, the strict
 * overlap test, and the first-found scan over the registered courses.  Also
 * the consistency property a registered list should have (unique ids, no
 * same-day overlapping pair), which the registration gate maintains.
 */
module TimeConflict {
  import opened Js
  import opened CourseModel

  // ---------------------------------------------------------------------
  // "HH:MM" to minutes
  // ---------------------------------------------------------------------

  /** The first element of `s.split(':')`: the text before the first colon,
      or all of `s` when it has none. */
  function FirstField(s: string): (r: string)
    ensures |r| <= |s|
  {
    if s == [] || s[0] == ':' then [] else [s[0]] + FirstField(s[1..])
  }

  /** The first field is the longest colon-free prefix. */
  lemma {:induction false} FirstFieldSpec(s: string)
    ensures ':' !in FirstField(s)
    ensures FirstField(s) == s[..|FirstField(s)|]
    ensures |FirstField(s)| < |s| ==> s[|FirstField(s)|] == ':'
    decreases |s|
  {
    if s != [] && s[0] != ':' {
      FirstFieldSpec(s[1..]);
    }
  }

  /** The text before the first colon is the hours and the text between the
      first and second colons is the minutes; each is read as a number and
      the result is hours * 60 + minutes.  With no colon there are no minutes
      and the sum is NaN; any later fields are ignored. */
  function TimeToMinutes(timeString: string): Number {
    var head := FirstField(timeString);
    var hours := ToNumber(head);
    if |head| == |timeString| then NaN
    else
      var rest := timeString[|head| + 1..];
      var minutes := ToNumber(FirstField(rest));
      Add(Scale(hours, 60), minutes)
  }

  /** The text before the first colon of `h + ":" + rest` is `h` when `h` has
      no colon. */
  lemma FirstFieldOfJoin(h: string, rest: string)
    requires ':' !in h
    ensures FirstField(h + ":" + rest) == h
  {
    var s := h + ":" + rest;
    FirstFieldSpec(s);
    assert s[..|h|] == h && s[|h|] == ':';
  }

  /** A string without a colon is its own first field. */
  lemma FirstFieldNoColon(s: string)
    requires ':' !in s
    ensures FirstField(s) == s
  {
    FirstFieldSpec(s);
  }

  /** `timeToMinutes` of a string whose first field is `h` followed by a
      colon and then `rest`. */
  lemma TimeToMinutesOfJoin(h: string, rest: string)
    requires ':' !in h
    ensures TimeToMinutes(h + ":" + rest) == Add(Scale(ToNumber(h), 60), ToNumber(FirstField(rest)))
  {
    var s := h + ":" + rest;
    FirstFieldOfJoin(h, rest);
    var head := FirstField(s);
    assert head == h;
    assert s[|head| + 1..] == rest;
  }

  /** Digit strings have no colon. */
  lemma DigitsHaveNoColon(s: string)
    requires AllDigits(s)
    ensures ':' !in s
  {
  }

  /** For two numeric components, `timeToMinutes("HH:MM")` is `HH * 60 + MM`. */
  lemma ClockToMinutes(h: string, m: string)
    requires AllDigits(h) && AllDigits(m)
    ensures TimeToMinutes(h + ":" + m) == Finite(DigitsValue(h) * 60 + DigitsValue(m))
  {
    DigitsHaveNoColon(h);
    DigitsHaveNoColon(m);
    TimeToMinutesOfJoin(h, m);
    FirstFieldNoColon(m);
    ToNumberOfDigits(h);
    ToNumberOfDigits(m);
  }

  /** A string without a colon has no minutes component, so it is NaN. */
  lemma NoColonIsNaN(s: string)
    requires ':' !in s
    ensures TimeToMinutes(s) == NaN
  {
    FirstFieldNoColon(s);
  }

  // ---------------------------------------------------------------------
  // Overlap
  // ---------------------------------------------------------------------

  /** The test `newStart < existingEnd && newEnd > existingStart`. */
  predicate Overlaps(newStart: Number, newEnd: Number, existingStart: Number, existingEnd: Number) {
    Less(newStart, existingEnd) && Less(existingStart, newEnd)
  }

  /** Swapping the new and the existing interval gives the same answer. */
  lemma OverlapsSymmetric(a: Number, b: Number, c: Number, d: Number)
    ensures Overlaps(a, b, c, d) == Overlaps(c, d, a, b)
  {
  }

  /** Because both comparisons are strict, intervals that only touch do not
      overlap. */
  lemma BackToBackDoNotOverlap(newStart: int, newEnd: int, existingStart: int, existingEnd: int)
    requires newStart == existingEnd || newEnd == existingStart
    ensures !Overlaps(Finite(newStart), Finite(newEnd), Finite(existingStart), Finite(existingEnd))
  {
  }

  /** Minute `t` lies in the half-open interval `[lo, hi)`. */
  predicate Within(t: int, lo: int, hi: int) {
    lo <= t < hi
  }

  /** For well-formed intervals the test says exactly that the half-open
      intervals `[newStart, newEnd)` and `[existingStart, existingEnd)` share
      a minute. */
  lemma OverlapsIffCommonMinute(newStart: int, newEnd: int, existingStart: int, existingEnd: int)
    requires newStart < newEnd && existingStart < existingEnd
    ensures Overlaps(Finite(newStart), Finite(newEnd), Finite(existingStart), Finite(existingEnd))
        <==> exists t :: Within(t, newStart, newEnd) && Within(t, existingStart, existingEnd)
  {
    if Overlaps(Finite(newStart), Finite(newEnd), Finite(existingStart), Finite(existingEnd)) {
      var t := if newStart < existingStart then existingStart else newStart;
      assert Within(t, newStart, newEnd) && Within(t, existingStart, existingEnd);
    }
  }

  /** `existing` conflicts with the candidate when both are on the same day
      and their minute intervals overlap. */
  predicate Conflicts(existing: Course, candidate: Course) {
    existing.day == candidate.day &&
    Overlaps(TimeToMinutes(candidate.startTime), TimeToMinutes(candidate.endTime),
             TimeToMinutes(existing.startTime), TimeToMinutes(existing.endTime))
  }

  /** Conflict is a symmetric relation. */
  lemma ConflictsSymmetric(a: Course, b: Course)
    ensures Conflicts(a, b) == Conflicts(b, a)
  {
  }

  /** There is no same-id exemption: a course whose start is before its end
      conflicts with itself. */
  lemma SelfConflict(c: Course)
    requires Less(TimeToMinutes(c.startTime), TimeToMinutes(c.endTime))
    ensures Conflicts(c, c)
  {
  }

  /** A course with an unparseable start or end never conflicts with anything. */
  lemma NaNNeverConflicts(existing: Course, candidate: Course)
    requires TimeToMinutes(candidate.startTime) == NaN || TimeToMinutes(candidate.endTime) == NaN
    ensures !Conflicts(existing, candidate) && !Conflicts(candidate, existing)
  {
  }

  // ---------------------------------------------------------------------
  // The scan
  // ---------------------------------------------------------------------

  /** `{ hasConflict, conflictingCourse }`, with `null` as None. */
  datatype ConflictResult = ConflictResult(hasConflict: bool, conflictingCourse: Option<Course>)

  /** `existing[k]` conflicts with `c` and no earlier entry does. */
  predicate FirstConflictAt(existing: seq<Course>, c: Course, k: int) {
    0 <= k < |existing| && Conflicts(existing[k], c) &&
    forall j :: 0 <= j < k ==> !Conflicts(existing[j], c)
  }

  /** `checkTimeConflict(existingCourses, newCourse)`: scans in order and
      reports the first course that conflicts with `newCourse`.  A conflict is
      reported exactly when some course conflicts; the reported course is a
      member of `existingCourses` that conflicts (no earlier one does, by
      `CheckTimeConflictFirst`); without a conflict the course is `null`. */
  function CheckTimeConflict(existingCourses: seq<Course>, newCourse: Course): (r: ConflictResult)
    ensures r.hasConflict <==> exists i :: 0 <= i < |existingCourses| && Conflicts(existingCourses[i], newCourse)
    ensures !r.hasConflict ==> r.conflictingCourse == None
    ensures r.hasConflict ==>
      r.conflictingCourse.Some? && r.conflictingCourse.value in existingCourses &&
      Conflicts(r.conflictingCourse.value, newCourse)
  {
    if existingCourses == [] then ConflictResult(false, None)
    else if Conflicts(existingCourses[0], newCourse) then ConflictResult(true, Some(existingCourses[0]))
    else
      var tail := existingCourses[1..];
      assert forall i :: 0 < i < |existingCourses| ==> existingCourses[i] == tail[i - 1];
      CheckTimeConflict(tail, newCourse)
  }

  /** The reported course is the first conflicting one. */
  lemma {:induction false} CheckTimeConflictFirst(existingCourses: seq<Course>, newCourse: Course)
    requires CheckTimeConflict(existingCourses, newCourse).hasConflict
    ensures exists k :: FirstConflictAt(existingCourses, newCourse, k) &&
                        CheckTimeConflict(existingCourses, newCourse).conflictingCourse == Some(existingCourses[k])
    decreases |existingCourses|
  {
    if Conflicts(existingCourses[0], newCourse) {
      assert FirstConflictAt(existingCourses, newCourse, 0);
    } else {
      var tail := existingCourses[1..];
      CheckTimeConflictFirst(tail, newCourse);
      var k :| FirstConflictAt(tail, newCourse, k) && CheckTimeConflict(tail, newCourse).conflictingCourse == Some(tail[k]);
      forall j | 0 <= j < k + 1 ensures !Conflicts(existingCourses[j], newCourse) {
        if j > 0 {
          assert existingCourses[j] == tail[j - 1];
        }
      }
      assert existingCourses[k + 1] == tail[k];
      assert FirstConflictAt(existingCourses, newCourse, k + 1);
    }
  }

  /** Against an empty list there is never a conflict. */
  lemma NoConflictWithNothing(c: Course)
    ensures CheckTimeConflict([], c) == ConflictResult(false, None)
  {
  }

  /** Courses on other days never conflict, whatever their times. */
  lemma {:induction false} OtherDaysNeverConflict(existing: seq<Course>, c: Course)
    requires forall i :: 0 <= i < |existing| ==> existing[i].day != c.day
    ensures !CheckTimeConflict(existing, c).hasConflict
  {
  }

  // ---------------------------------------------------------------------
  // Consistency of a registered list
  // ---------------------------------------------------------------------

  /** No two entries share an id. */
  predicate UniqueIds(s: seq<Course>) {
    forall i, j :: 0 <= i < j < |s| ==> s[i].id != s[j].id
  }

  /** No earlier entry conflicts with a later one. */
  predicate NoConflictingPair(s: seq<Course>) {
    forall i, j :: 0 <= i < j < |s| ==> !Conflicts(s[i], s[j])
  }

  /** The invariant a student's registered list should keep. */
  predicate ValidSchedule(s: seq<Course>) {
    UniqueIds(s) && NoConflictingPair(s)
  }

  /** Leaving entries out of a consistent list keeps it consistent. */
  lemma {:induction false} SubsequenceKeepsValidSchedule(a: seq<Course>, b: seq<Course>)
    requires IsSubsequence(a, b) && ValidSchedule(b)
    ensures ValidSchedule(a)
    decreases |b|
  {
    if a != [] {
      assert forall i :: 0 < i < |b| ==> b[i] == b[1..][i - 1];
      assert ValidSchedule(b[1..]);
      if a[0] == b[0] && IsSubsequence(a[1..], b[1..]) {
        SubsequenceKeepsValidSchedule(a[1..], b[1..]);
        SubsequenceMembers(a[1..], b[1..]);
        forall i, j | 0 <= i < j < |a|
          ensures a[i].id != a[j].id && !Conflicts(a[i], a[j])
        {
          assert a[j] == a[1..][j - 1];
          if i == 0 {
            assert a[j] in b[1..];
            var k :| 0 <= k < |b[1..]| && b[1..][k] == a[j];
            assert b[0] == b[0] && b[k + 1] == a[j];
          } else {
            assert a[i] == a[1..][i - 1];
          }
        }
      } else {
        SubsequenceKeepsValidSchedule(a, b[1..]);
      }
    }
  }
}
