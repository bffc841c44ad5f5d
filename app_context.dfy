/**
 * The application state store: authentication, the course catalog, the
 * student's registered list and the drop-request ledger, together with the
 * copies kept in browser storage.  Each action replaces whole fields with
 * values built by the pure list operations defined first.
 */
module AppContext {
  import opened Js
  import opened CourseModel
  import opened TimeConflict

  // ---------------------------------------------------------------------
  // Records
  // ---------------------------------------------------------------------

  /** The three status strings a drop request can carry. */
  datatype DropStatus = Pending | Approved | Rejected

  /** `{ id, course, studentName, requestedAt, status, resolvedAt }`; the
      course is a copy taken when the request was made, and `resolvedAt` is
      absent until an approval or rejection adds it. */
  datatype DropRequest = DropRequest(
    id: int,
    course: Course,
    studentName: string,
    requestedAt: string,
    status: DropStatus,
    resolvedAt: Option<string>)

  /** The notification record `{ show, message, type }`. */
  datatype Toast = Toast(show: bool, message: string, kind: string)

  // ---------------------------------------------------------------------
  // List operations used by the actions
  // ---------------------------------------------------------------------

  /** `list.filter((c) => c.id !== id)`: every entry with another id, each as
      often as in the list, in their original order; the list itself when no
      entry has that id. */
  function WithoutId(list: seq<Course>, id: int): (r: seq<Course>)
    ensures forall c :: c in r <==> c in list && c.id != id
    ensures IsSubsequence(r, list)
    ensures !HasId(r, id)
    ensures !HasId(list, id) ==> r == list
    ensures forall c :: multiset(r)[c] == if c.id != id then multiset(list)[c] else 0
  {
    if list == [] then []
    else
      var tail := list[1..];
      var rest := WithoutId(tail, id);
      assert list == [list[0]] + tail;
      var r := if list[0].id == id then rest else [list[0]] + rest;
      assert IsSubsequence(r, list) by {
        if list[0].id == id {
          SubsequenceSkip(list[0], rest, tail);
        } else {
          SubsequenceCons(list[0], rest, tail);
        }
      }
      WithoutIdStep(list[0], tail, rest, r, id);
      assert !HasId(list, id) ==> !HasId(tail, id) by {
        if !HasId(list, id) {
          forall i | 0 <= i < |tail| ensures tail[i].id != id {
            assert tail[i] == list[i + 1];
          }
        }
      }
      r
  }

  /** One step of `WithoutId`: the head is kept exactly when its id differs. */
  lemma WithoutIdStep(head: Course, tail: seq<Course>, rest: seq<Course>, r: seq<Course>, id: int)
    requires forall c :: multiset(rest)[c] == if c.id != id then multiset(tail)[c] else 0
    requires !HasId(rest, id)
    requires r == if head.id == id then rest else [head] + rest
    ensures forall c :: multiset(r)[c] == if c.id != id then multiset([head] + tail)[c] else 0
    ensures forall c :: c in r <==> c in [head] + tail && c.id != id
    ensures !HasId(r, id)
  {
    assert multiset([head] + tail) == multiset{head} + multiset(tail);
    if head.id != id {
      assert multiset(r) == multiset{head} + multiset(rest);
      forall i | 0 <= i < |r| ensures r[i].id != id {
        if i > 0 { assert r[i] == rest[i - 1]; }
      }
    }
    forall c ensures c in r <==> c in [head] + tail && c.id != id {
      assert (c in r) == (multiset(r)[c] > 0);
      assert (c in [head] + tail) == (multiset([head] + tail)[c] > 0);
    }
  }

  /** Filtering twice by the same id is filtering once. */
  lemma WithoutIdIdempotent(list: seq<Course>, id: int)
    ensures WithoutId(WithoutId(list, id), id) == WithoutId(list, id)
  {
  }

  /** Removing an id keeps a consistent registered list consistent. */
  lemma WithoutIdKeepsValidSchedule(list: seq<Course>, id: int)
    requires ValidSchedule(list)
    ensures ValidSchedule(WithoutId(list, id))
  {
    SubsequenceKeepsValidSchedule(WithoutId(list, id), list);
  }

  /** `list.map((c) => c.id === updated.id ? updated : c)`. */
  function ReplaceById(list: seq<Course>, updated: Course): (r: seq<Course>)
    ensures |r| == |list|
    ensures forall i :: 0 <= i < |list| ==> r[i] == if list[i].id == updated.id then updated else list[i]
  {
    if list == [] then []
    else [if list[0].id == updated.id then updated else list[0]] + ReplaceById(list[1..], updated)
  }

  /** Updating a course whose id is not in the catalog changes nothing, and
      an update never changes the sequence of ids. */
  lemma ReplaceByIdUnknownOrIds(list: seq<Course>, updated: Course)
    ensures !HasId(list, updated.id) ==> ReplaceById(list, updated) == list
    ensures forall i :: 0 <= i < |list| ==> ReplaceById(list, updated)[i].id == list[i].id
  {
    if !HasId(list, updated.id) {
      var r := ReplaceById(list, updated);
      assert forall i :: 0 <= i < |list| ==> r[i] == list[i];
    }
  }

  /** Some request for this course id still has status `'pending'`. */
  predicate PendingFor(requests: seq<DropRequest>, courseId: int) {
    exists i :: 0 <= i < |requests| && requests[i].course.id == courseId && requests[i].status == Pending
  }

  /** The ledger invariant: at most one pending request per course id. */
  predicate AtMostOnePending(requests: seq<DropRequest>) {
    forall i, j :: 0 <= i < j < |requests| && requests[i].status == Pending && requests[j].status == Pending
      ==> requests[i].course.id != requests[j].course.id
  }

  /** The request `requestDrop` creates. */
  function NewRequest(course: Course, freshId: int, now: string): DropRequest {
    DropRequest(freshId, course, "Student", now, Pending, None)
  }

  /** The ledger after `requestDrop(course)`: unchanged when a pending
      request for the course id exists, otherwise one new pending request at
      the end.  Either way a request for the course is pending afterwards. */
  function WithDropRequest(requests: seq<DropRequest>, course: Course, freshId: int, now: string): (r: seq<DropRequest>)
    ensures PendingFor(r, course.id)
    ensures PendingFor(requests, course.id) ==> r == requests
    ensures !PendingFor(requests, course.id) ==> |r| == |requests| + 1 && r[..|requests|] == requests && r[|requests|] == NewRequest(course, freshId, now)
  {
    if PendingFor(requests, course.id) then requests
    else
      var r := requests + [NewRequest(course, freshId, now)];
      assert r[|requests|].course.id == course.id;
      r
  }

  /** `requestDrop` keeps at most one pending request per course id. */
  lemma {:induction false} WithDropRequestKeepsAtMostOnePending(requests: seq<DropRequest>, course: Course, freshId: int, now: string)
    requires AtMostOnePending(requests)
    ensures AtMostOnePending(WithDropRequest(requests, course, freshId, now))
  {
    if !PendingFor(requests, course.id) {
      var r := WithDropRequest(requests, course, freshId, now);
      forall i, j | 0 <= i < j < |r| && r[i].status == Pending && r[j].status == Pending
        ensures r[i].course.id != r[j].course.id
      {
        assert r[i] == requests[i];
        if j < |requests| {
          assert r[j] == requests[j];
        } else {
          assert r[j].course.id == course.id;
        }
      }
    }
  }

  /** `requests[k]` has the id and no earlier request does. */
  predicate FirstRequestAt(requests: seq<DropRequest>, requestId: int, k: int) {
    0 <= k < |requests| && requests[k].id == requestId &&
    forall j :: 0 <= j < k ==> requests[j].id != requestId
  }

  /** Some request carries this id. */
  predicate HasRequest(requests: seq<DropRequest>, requestId: int) {
    exists i :: 0 <= i < |requests| && requests[i].id == requestId
  }

  /** `requests.find((r) => r.id === requestId)`: the first request with that id. */
  function FindRequest(requests: seq<DropRequest>, requestId: int): (r: Option<DropRequest>)
    ensures r.None? <==> !HasRequest(requests, requestId)
    ensures r.Some? ==> r.value.id == requestId
  {
    if requests == [] then None
    else if requests[0].id == requestId then Some(requests[0])
    else
      var tail := requests[1..];
      assert forall i :: 0 < i < |requests| ==> requests[i] == tail[i - 1];
      FindRequest(tail, requestId)
  }

  /** What `find` returns is the request at the first position carrying the id. */
  lemma {:induction false} FindRequestFirst(requests: seq<DropRequest>, requestId: int)
    requires HasRequest(requests, requestId)
    ensures exists k :: FirstRequestAt(requests, requestId, k) && requests[k] == FindRequest(requests, requestId).value
    decreases |requests|
  {
    if requests[0].id == requestId {
      assert FirstRequestAt(requests, requestId, 0);
    } else {
      var tail := requests[1..];
      assert forall i :: 0 < i < |requests| ==> requests[i] == tail[i - 1];
      FindRequestFirst(tail, requestId);
      var k :| FirstRequestAt(tail, requestId, k) && tail[k] == FindRequest(tail, requestId).value;
      assert FirstRequestAt(requests, requestId, k + 1);
    }
  }

  /** A request with its status set and `resolvedAt` stamped. */
  function Resolved(r: DropRequest, status: DropStatus, now: string): DropRequest {
    r.(status := status, resolvedAt := Some(now))
  }

  /** `requests.map((r) => r.id === requestId ? { ...r, status, resolvedAt } : r)`:
      every request with that id is resolved, whatever its prior status, and
      every other request is left as it was. */
  function Resolve(requests: seq<DropRequest>, requestId: int, status: DropStatus, now: string): (r: seq<DropRequest>)
    ensures |r| == |requests|
    ensures forall i :: 0 <= i < |requests| ==>
      r[i] == if requests[i].id == requestId then Resolved(requests[i], status, now) else requests[i]
  {
    if requests == [] then []
    else
      [if requests[0].id == requestId then Resolved(requests[0], status, now) else requests[0]]
        + Resolve(requests[1..], requestId, status, now)
  }

  /** Resolving never creates a pending request, so the ledger invariant holds
      after an approval or a rejection. */
  lemma ResolveKeepsAtMostOnePending(requests: seq<DropRequest>, requestId: int, status: DropStatus, now: string)
    requires status != Pending
    requires AtMostOnePending(requests)
    ensures AtMostOnePending(Resolve(requests, requestId, status, now))
  {
    var r := Resolve(requests, requestId, status, now);
    forall i, j | 0 <= i < j < |r| && r[i].status == Pending && r[j].status == Pending
      ensures r[i].course.id != r[j].course.id
    {
      assert r[i] == requests[i] && r[j] == requests[j];
    }
  }

  /** After resolving, the request found under that id is the resolved
      version of the one found before: same course, same position. */
  lemma ResolveKeepsFind(requests: seq<DropRequest>, requestId: int, status: DropStatus, now: string)
    requires FindRequest(requests, requestId).Some?
    ensures FindRequest(Resolve(requests, requestId, status, now), requestId)
         == Some(Resolved(FindRequest(requests, requestId).value, status, now))
  {
    var r := Resolve(requests, requestId, status, now);
    FindRequestFirst(requests, requestId);
    var k :| FirstRequestAt(requests, requestId, k) && requests[k] == FindRequest(requests, requestId).value;
    assert r[k].id == requestId;
    FindRequestFirst(r, requestId);
    var f := FindRequest(r, requestId);
    var k' :| FirstRequestAt(r, requestId, k') && r[k'] == f.value;
    assert requests[k'].id == requestId;
    assert k' == k;
  }

  /** A new request for a course with nothing pending, under an id not yet
      used, is what `find` returns for that id. */
  lemma FindNewRequest(requests: seq<DropRequest>, course: Course, freshId: int, requestedAt: string)
    requires !PendingFor(requests, course.id)
    requires forall i :: 0 <= i < |requests| ==> requests[i].id != freshId
    ensures FindRequest(WithDropRequest(requests, course, freshId, requestedAt), freshId) == Some(NewRequest(course, freshId, requestedAt))
  {
    var r1 := WithDropRequest(requests, course, freshId, requestedAt);
    var f := FindRequest(r1, freshId);
    assert r1[|requests|].id == freshId;
    FindRequestFirst(r1, freshId);
    var k :| FirstRequestAt(r1, freshId, k) && r1[k] == f.value;
    assert k == |requests|;
  }

  /** Drop round trip on the ledger: requesting a drop for a course with
      nothing pending, under an id not yet used, and then resolving that id
      leaves the earlier ledger intact plus exactly one resolved record for
      the course. */
  lemma RequestThenResolve(requests: seq<DropRequest>, course: Course, freshId: int, requestedAt: string, status: DropStatus, resolvedAt: string)
    requires !PendingFor(requests, course.id)
    requires forall i :: 0 <= i < |requests| ==> requests[i].id != freshId
    ensures Resolve(WithDropRequest(requests, course, freshId, requestedAt), freshId, status, resolvedAt)
         == requests + [DropRequest(freshId, course, "Student", requestedAt, status, Some(resolvedAt))]
  {
    var r1 := WithDropRequest(requests, course, freshId, requestedAt);
    var r2 := Resolve(r1, freshId, status, resolvedAt);
    var want := requests + [DropRequest(freshId, course, "Student", requestedAt, status, Some(resolvedAt))];
    forall i | 0 <= i < |r2| ensures r2[i] == want[i] {
      if i < |requests| {
        assert r1[i] == requests[i];
      } else {
        assert r1[i] == NewRequest(course, freshId, requestedAt);
      }
    }
  }

  // ---------------------------------------------------------------------
  // The store
  // ---------------------------------------------------------------------

  /** The provider's state.  The `saved...` fields are the `localStorage`
      entries `registeredCourses` and `dropRequests` (None while a key is
      unset); serialisation is taken to round-trip. */
  class AppState {
    var userRole: Option<string>
    var isAuthenticated: bool
    var courseList: seq<Course>
    var registeredCourses: seq<Course>
    var dropRequests: seq<DropRequest>
    var toast: Toast
    var savedRegisteredCourses: Option<seq<Course>>
    var savedDropRequests: Option<seq<DropRequest>>

    /** Mounting the provider: nobody logged in, an empty registered list,
        drop requests read from storage, and the catalog set to the seed list
        by the mount effect. */
    constructor (seed: seq<Course>, storedRegistered: Option<seq<Course>>, storedDropRequests: Option<seq<DropRequest>>)
      ensures userRole == None && !isAuthenticated
      ensures courseList == seed && registeredCourses == []
      ensures dropRequests == storedDropRequests.GetOr([])
      ensures savedRegisteredCourses == storedRegistered && savedDropRequests == storedDropRequests
      ensures toast == Toast(false, "", "")
    {
      userRole := None;
      isAuthenticated := false;
      courseList := seed;
      registeredCourses := [];
      dropRequests := storedDropRequests.GetOr([]);
      toast := Toast(false, "", "");
      savedRegisteredCourses := storedRegistered;
      savedDropRequests := storedDropRequests;
    }

    /** `showToast(message, type)`; the timer that hides it again is not modelled. */
    method ShowToast(message: string, kind: string)
      modifies this`toast
      ensures toast == Toast(true, message, kind)
    {
      toast := Toast(true, message, kind);
    }

    /** `login(role)`: a student gets the stored registered list back when
        the storage key is set. */
    method Login(role: string)
      modifies this`userRole, this`isAuthenticated, this`registeredCourses
      ensures userRole == Some(role) && isAuthenticated
      ensures registeredCourses ==
        if role == "student" && savedRegisteredCourses.Some? then savedRegisteredCourses.value
        else old(registeredCourses)
    {
      userRole := Some(role);
      isAuthenticated := true;
      if role == "student" {
        if savedRegisteredCourses.Some? {
          registeredCourses := savedRegisteredCourses.value;
        }
      }
    }

    /** `logout()`: clears the in-memory registered list, not the stored one. */
    method Logout()
      modifies this`userRole, this`isAuthenticated, this`registeredCourses
      ensures userRole == None && !isAuthenticated && registeredCourses == []
    {
      userRole := None;
      isAuthenticated := false;
      registeredCourses := [];
    }

    /** `addCourse(course)`: appends the course under a fresh id. */
    method AddCourse(course: Course, freshId: int)
      modifies this`courseList, this`toast
      ensures courseList == old(courseList) + [course.(id := freshId)]
      ensures toast == Toast(true, "Course added successfully", "success")
    {
      courseList := courseList + [course.(id := freshId)];
      ShowToast("Course added successfully", "success");
    }

    /** `updateCourse(updatedCourse)`: replaces every catalog entry with that
        id.  Registered copies are not touched. */
    method UpdateCourse(updatedCourse: Course)
      modifies this`courseList, this`toast
      ensures courseList == ReplaceById(old(courseList), updatedCourse)
      ensures toast == Toast(true, "Course updated successfully", "success")
    {
      courseList := ReplaceById(courseList, updatedCourse);
      ShowToast("Course updated successfully", "success");
    }

    /** `deleteCourse(courseId)`: removes the id from the catalog and from the
        in-memory registered list; the stored list and the drop requests are
        left as they are. */
    method DeleteCourse(courseId: int)
      modifies this`courseList, this`registeredCourses, this`toast
      ensures courseList == WithoutId(old(courseList), courseId)
      ensures registeredCourses == WithoutId(old(registeredCourses), courseId)
      ensures old(ValidSchedule(registeredCourses)) ==> ValidSchedule(registeredCourses)
      ensures toast == Toast(true, "Course deleted successfully", "success")
    {
      courseList := WithoutId(courseList, courseId);
      if ValidSchedule(registeredCourses) {
        WithoutIdKeepsValidSchedule(registeredCourses, courseId);
      }
      registeredCourses := WithoutId(registeredCourses, courseId);
      ShowToast("Course deleted successfully", "success");
    }

    /** `registerCourse(course)`: appends with no duplicate or conflict check
        and stores exactly the new list. */
    method RegisterCourse(course: Course)
      modifies this`registeredCourses, this`savedRegisteredCourses, this`toast
      ensures registeredCourses == old(registeredCourses) + [course]
      ensures savedRegisteredCourses == Some(registeredCourses)
      ensures toast == Toast(true, "Course registered successfully", "success")
    {
      registeredCourses := registeredCourses + [course];
      savedRegisteredCourses := Some(registeredCourses);
      ShowToast("Course registered successfully", "success");
    }

    /** `unregisterCourse(courseId)`: removes every entry with the id and
        stores the result. */
    method UnregisterCourse(courseId: int)
      modifies this`registeredCourses, this`savedRegisteredCourses, this`toast
      ensures registeredCourses == WithoutId(old(registeredCourses), courseId)
      ensures savedRegisteredCourses == Some(registeredCourses)
      ensures old(ValidSchedule(registeredCourses)) ==> ValidSchedule(registeredCourses)
      ensures toast == Toast(true, "Course unregistered successfully", "success")
    {
      if ValidSchedule(registeredCourses) {
        WithoutIdKeepsValidSchedule(registeredCourses, courseId);
      }
      registeredCourses := WithoutId(registeredCourses, courseId);
      savedRegisteredCourses := Some(registeredCourses);
      ShowToast("Course unregistered successfully", "success");
    }

    /** `requestDrop(course)`: refused, with an info toast and no write, when
        a pending request for the course id exists; otherwise one pending
        request is appended and the ledger stored. */
    method RequestDrop(course: Course, freshId: int, now: string)
      modifies this`dropRequests, this`savedDropRequests, this`toast
      ensures dropRequests == WithDropRequest(old(dropRequests), course, freshId, now)
      ensures old(PendingFor(dropRequests, course.id)) ==>
        savedDropRequests == old(savedDropRequests) &&
        toast == Toast(true, "Drop request already submitted for this course", "info")
      ensures !old(PendingFor(dropRequests, course.id)) ==>
        savedDropRequests == Some(dropRequests) &&
        toast == Toast(true, "Drop request submitted. Awaiting admin approval.", "info")
      ensures old(AtMostOnePending(dropRequests)) ==> AtMostOnePending(dropRequests)
    {
      if AtMostOnePending(dropRequests) {
        WithDropRequestKeepsAtMostOnePending(dropRequests, course, freshId, now);
      }
      if PendingFor(dropRequests, course.id) {
        ShowToast("Drop request already submitted for this course", "info");
        return;
      }
      dropRequests := dropRequests + [NewRequest(course, freshId, now)];
      savedDropRequests := Some(dropRequests);
      ShowToast("Drop request submitted. Awaiting admin approval.", "info");
    }

    /** `approveDrop(requestId)`: nothing happens for an unknown id.
        Otherwise the course of the first request with that id is removed
        from the STORED registered list (whoever is logged in), that result
        becomes both the stored and the in-memory list, and every request
        with the id is marked approved, whatever its prior status.  That the
        stored list stays consistent follows from its ensures and
        `WithoutIdKeepsValidSchedule`. */
    method ApproveDrop(requestId: int, now: string)
      modifies this`registeredCourses, this`savedRegisteredCourses, this`dropRequests,
               this`savedDropRequests, this`toast
      ensures FindRequest(old(dropRequests), requestId).None? ==>
        registeredCourses == old(registeredCourses) && savedRegisteredCourses == old(savedRegisteredCourses) &&
        dropRequests == old(dropRequests) && savedDropRequests == old(savedDropRequests) && toast == old(toast)
      ensures FindRequest(old(dropRequests), requestId).Some? ==>
        savedRegisteredCourses ==
          Some(WithoutId(old(savedRegisteredCourses).GetOr([]), FindRequest(old(dropRequests), requestId).value.course.id))
      ensures FindRequest(old(dropRequests), requestId).Some? ==>
        registeredCourses == savedRegisteredCourses.value
      ensures FindRequest(old(dropRequests), requestId).Some? ==>
        dropRequests == Resolve(old(dropRequests), requestId, Approved, now) && savedDropRequests == Some(dropRequests)
      ensures FindRequest(old(dropRequests), requestId).Some? ==>
        toast == Toast(true, "Drop request approved. Course removed from student schedule.", "success")
      ensures old(AtMostOnePending(dropRequests)) ==> AtMostOnePending(dropRequests)
    {
      var request := FindRequest(dropRequests, requestId);
      if request.Some? {
        var newRegisteredCourses := WithoutId(savedRegisteredCourses.GetOr([]), request.value.course.id);
        var updated := Resolve(dropRequests, requestId, Approved, now);
        if AtMostOnePending(dropRequests) {
          ResolveKeepsAtMostOnePending(dropRequests, requestId, Approved, now);
        }
        savedRegisteredCourses := Some(newRegisteredCourses);
        registeredCourses := newRegisteredCourses;
        dropRequests := updated;
        savedDropRequests := Some(updated);
        ShowToast("Drop request approved. Course removed from student schedule.", "success");
      }
    }

    /** `rejectDrop(requestId)`: marks every request with the id rejected,
        whatever its prior status, stores the ledger (even when no request
        matched) and never touches the registered lists. */
    method RejectDrop(requestId: int, now: string)
      modifies this`dropRequests, this`savedDropRequests, this`toast
      ensures dropRequests == Resolve(old(dropRequests), requestId, Rejected, now)
      ensures savedDropRequests == Some(dropRequests)
      ensures old(AtMostOnePending(dropRequests)) ==> AtMostOnePending(dropRequests)
      ensures toast == Toast(true, "Drop request rejected.", "error")
    {
      if AtMostOnePending(dropRequests) {
        ResolveKeepsAtMostOnePending(dropRequests, requestId, Rejected, now);
      }
      dropRequests := Resolve(dropRequests, requestId, Rejected, now);
      savedDropRequests := Some(dropRequests);
      ShowToast("Drop request rejected.", "error");
    }
  }
}
