/**
 * The statistics shown on the student and admin dashboards: credit totals,
 * the per-weekday course counts, the number of distinct instructors, and the
 * first-five preview of the catalog with its "View All" link.
 */
module Dashboards {
  import opened CourseModel

  // ---------------------------------------------------------------------
  // Credits
  // ---------------------------------------------------------------------

  /** `courses.reduce((sum, course) => sum + course.credits, 0)`, folding
      from the left. */
  function TotalCredits(courses: seq<Course>): int
    decreases |courses|
  {
    if courses == [] then 0
    else TotalCredits(courses[..|courses| - 1]) + courses[|courses| - 1].credits
  }

  /** The total of two lists one after the other is the sum of their totals;
      in particular registering a course adds exactly its credits. */
  lemma {:induction false} TotalCreditsAppend(a: seq<Course>, b: seq<Course>)
    ensures TotalCredits(a + b) == TotalCredits(a) + TotalCredits(b)
    decreases |b|
  {
    if b == [] {
      assert a + b == a;
    } else {
      var b' := b[..|b| - 1];
      assert (a + b)[..|a + b| - 1] == a + b';
      TotalCreditsAppend(a, b');
    }
  }

  /** The total is independent of the fold direction: the first course's
      credits plus the total of the rest. */
  lemma TotalCreditsFirst(courses: seq<Course>)
    requires courses != []
    ensures TotalCredits(courses) == courses[0].credits + TotalCredits(courses[1..])
  {
    TotalCreditsAppend([courses[0]], courses[1..]);
    assert [courses[0]] + courses[1..] == courses;
    assert [courses[0]][..0] == [];
  }

  /** With non-negative credits every course adds to the total. */
  lemma {:induction false} TotalCreditsBounds(courses: seq<Course>)
    requires forall i :: 0 <= i < |courses| ==> courses[i].credits >= 0
    ensures TotalCredits(courses) >= 0
    ensures forall i :: 0 <= i < |courses| ==> TotalCredits(courses) >= courses[i].credits
    decreases |courses|
  {
    if courses != [] {
      var init := courses[..|courses| - 1];
      TotalCreditsBounds(init);
      forall i | 0 <= i < |courses| ensures TotalCredits(courses) >= courses[i].credits {
        if i < |courses| - 1 {
          assert courses[i] == init[i];
        }
      }
    }
  }

  // ---------------------------------------------------------------------
  // Per-day counts
  // ---------------------------------------------------------------------

  /** `coursesByDay[day] || 0`: the count under a key, 0 when it is absent. */
  function Lookup(counts: map<string, int>, day: string): int {
    if day in counts then counts[day] else 0
  }

  /** `courses.reduce((acc, c) => { acc[c.day] = (acc[c.day] || 0) + 1; ... }, {})`. */
  function Tally(courses: seq<Course>): map<string, int>
    decreases |courses|
  {
    if courses == [] then map[]
    else
      var acc := Tally(courses[..|courses| - 1]);
      var day := courses[|courses| - 1].day;
      acc[day := Lookup(acc, day) + 1]
  }

  /** The number of courses on `day`. */
  function CountOnDay(courses: seq<Course>, day: string): (r: nat)
    ensures r <= |courses|
    decreases |courses|
  {
    if courses == [] then 0
    else CountOnDay(courses[..|courses| - 1], day) + (if courses[|courses| - 1].day == day then 1 else 0)
  }

  /** The tally holds, for every day, the number of courses on it (so a
      weekday without courses shows 0), and it has a key exactly for the days
      some course is on. */
  lemma {:induction false} TallyCounts(courses: seq<Course>)
    ensures forall day :: Lookup(Tally(courses), day) == CountOnDay(courses, day)
    ensures forall day :: day in Tally(courses) <==> exists i :: 0 <= i < |courses| && courses[i].day == day
    decreases |courses|
  {
    if courses != [] {
      var init := courses[..|courses| - 1];
      TallyCounts(init);
      forall day ensures day in Tally(courses) <==> exists i :: 0 <= i < |courses| && courses[i].day == day {
        if day in Tally(init) {
          var i :| 0 <= i < |init| && init[i].day == day;
          assert courses[i].day == day;
        }
        if exists i :: 0 <= i < |courses| && courses[i].day == day {
          var i :| 0 <= i < |courses| && courses[i].day == day;
          if i < |init| {
            assert init[i].day == day;
          }
        }
      }
    }
  }

  /** The sum of the per-day counts over a list of days. */
  function SumCounts(courses: seq<Course>, days: seq<string>): int
    decreases |days|
  {
    if days == [] then 0 else CountOnDay(courses, days[0]) + SumCounts(courses, days[1..])
  }

  /** No day is listed twice. */
  predicate Distinct(days: seq<string>) {
    forall i, j :: 0 <= i < j < |days| ==> days[i] != days[j]
  }

  /** One more course raises the sum by one when its day is listed once. */
  lemma {:induction false} SumCountsSnoc(courses: seq<Course>, c: Course, days: seq<string>)
    requires Distinct(days)
    ensures SumCounts(courses + [c], days) == SumCounts(courses, days) + (if c.day in days then 1 else 0)
    decreases |days|
  {
    if days != [] {
      assert (courses + [c])[..|courses + [c]| - 1] == courses;
      assert Distinct(days[1..]) by {
        forall i, j | 0 <= i < j < |days[1..]| ensures days[1..][i] != days[1..][j] {
          assert days[1..][i] == days[i + 1] && days[1..][j] == days[j + 1];
        }
      }
      SumCountsSnoc(courses, c, days[1..]);
      if c.day == days[0] {
        assert c.day !in days[1..] by {
          forall k | 0 <= k < |days[1..]| ensures days[1..][k] != c.day {
            assert days[1..][k] == days[k + 1];
          }
        }
      } else {
        assert c.day in days <==> c.day in days[1..] by {
          assert days == [days[0]] + days[1..];
        }
      }
    }
  }

  /** Over a list of distinct days that includes every course's day, the
      shown counts add up to the number of courses (the "Total Courses"
      card). */
  lemma {:induction false} TallySumsToLength(courses: seq<Course>, days: seq<string>)
    requires Distinct(days)
    requires forall i :: 0 <= i < |courses| ==> courses[i].day in days
    ensures SumCounts(courses, days) == |courses|
    decreases |courses|
  {
    if courses == [] {
      SumCountsEmpty(days);
    } else {
      var init := courses[..|courses| - 1];
      var last := courses[|courses| - 1];
      assert init + [last] == courses;
      SumCountsSnoc(init, last, days);
      TallySumsToLength(init, days);
    }
  }

  /** With no courses every count is 0. */
  lemma {:induction false} SumCountsEmpty(days: seq<string>)
    ensures SumCounts([], days) == 0
    decreases |days|
  {
    if days != [] {
      SumCountsEmpty(days[1..]);
    }
  }

  /** The sum of the shown values `counts[day] || 0` over a list of days. */
  function SumLookup(counts: map<string, int>, days: seq<string>): int
    decreases |days|
  {
    if days == [] then 0 else Lookup(counts, days[0]) + SumLookup(counts, days[1..])
  }

  /** The weekday columns of the weekly distribution card. */
  const Weekdays: seq<string> := ["Monday", "Tuesday", "Wednesday", "Thursday", "Friday"]

  /** Summing the tally's shown values is summing the per-day counts. */
  lemma {:induction false} SumLookupOfTally(courses: seq<Course>, days: seq<string>)
    ensures SumLookup(Tally(courses), days) == SumCounts(courses, days)
    decreases |days|
  {
    if days != [] {
      TallyCounts(courses);
      SumLookupOfTally(courses, days[1..]);
    }
  }

  /** When every course is on a weekday, the five numbers of the weekly
      distribution add up to the "Total Courses" figure. */
  lemma WeeklyDistributionSumsToTotal(courses: seq<Course>)
    requires forall i :: 0 <= i < |courses| ==> courses[i].day in Weekdays
    ensures SumLookup(Tally(courses), Weekdays) == |courses|
  {
    WeekdaysDistinct();
    SumLookupOfTally(courses, Weekdays);
    TallySumsToLength(courses, Weekdays);
  }

  /** The five weekday names differ. */
  lemma WeekdaysDistinct()
    ensures Distinct(Weekdays)
  {
    forall i, j | 0 <= i < j < |Weekdays| ensures Weekdays[i] != Weekdays[j] {
      assert Weekdays[i][0] != Weekdays[j][0] || Weekdays[i][1] != Weekdays[j][1];
    }
  }

  // ---------------------------------------------------------------------
  // Instructors
  // ---------------------------------------------------------------------

  /** `new Set(courseList.map((c) => c.instructor))`. */
  function Instructors(courses: seq<Course>): (r: set<string>)
    ensures forall x :: x in r <==> exists i :: 0 <= i < |courses| && courses[i].instructor == x
    decreases |courses|
  {
    if courses == [] then {}
    else
      var init := courses[..|courses| - 1];
      var rest := Instructors(init);
      assert forall i :: 0 <= i < |init| ==> courses[i] == init[i];
      rest + {courses[|courses| - 1].instructor}
  }

  /** `uniqueInstructors`: at most one per course, and at least one when
      there is a course. */
  lemma {:induction false} InstructorCountBounds(courses: seq<Course>)
    ensures |Instructors(courses)| <= |courses|
    ensures courses != [] ==> |Instructors(courses)| >= 1
    decreases |courses|
  {
    if courses != [] {
      InstructorCountBounds(courses[..|courses| - 1]);
      assert courses[0].instructor in Instructors(courses);
    }
  }

  // ---------------------------------------------------------------------
  // Preview
  // ---------------------------------------------------------------------

  /** How many catalog courses the admin dashboard lists. */
  const PreviewSize := 5

  /** `courseList.slice(0, 5)`: the first five courses (all of them when
      there are fewer), in catalog order. */
  function Preview(courses: seq<Course>): (r: seq<Course>)
    ensures |r| == if |courses| < PreviewSize then |courses| else PreviewSize
    ensures forall i :: 0 <= i < |r| ==> r[i] == courses[i]
  {
    if |courses| < PreviewSize then courses else courses[..PreviewSize]
  }

  /** `courseList.length > 5`. */
  predicate ShowViewAll(courses: seq<Course>) {
    |courses| > PreviewSize
  }

  /** The "View All" link appears exactly when the preview leaves courses out. */
  lemma ViewAllIffTruncated(courses: seq<Course>)
    ensures ShowViewAll(courses) <==> Preview(courses) != courses
  {
    if !ShowViewAll(courses) {
      assert Preview(courses) == courses;
    }
  }
}
