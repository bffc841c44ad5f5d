# Course registration front end — a Dafny model

This project models the logic of a single-page course-registration
application. Students browse a catalog, register for courses, see a weekly
timetable and ask for courses to be dropped. Administrators manage the
catalog and approve or reject drop requests. The model covers:

- the time-conflict checker (`checkTimeConflict` and its `HH:MM` to minutes
  conversion);
- the application store (`AppProvider`): login, logout, the catalog, the
  registered list, the drop-request ledger, the toast, and the two browser
  storage keys the store reads and writes;
- the Browse Courses page: the search and day filter, the registration gate
  `handleRegister`, and the highlighting probe `hasConflict`;
- the weekly timetable cell lookup (`getCourseForSlot`);
- the signup form: the validator with its exact messages, `handleChange` and
  `handleSignup`;
- the `PrivateRoute` and `PublicRoute` guards;
- the statistics on the student and admin dashboards.

Modules follow the program's files:

- `Js` holds the JavaScript primitives the code relies on: `trim`,
  `toLowerCase`, `includes`, `Number` on clock components, and NaN-aware
  arithmetic and comparison.
- `CourseModel` holds the course record and the sub-sequence relation that
  `filter` produces.
- `TimeConflict`, `AppContext`, `CoursesPage`, `ScheduleGrid`, `Signup`,
  `PrivateRoute` and `Dashboards` model the files of the same names.
- `Scenarios` states facts about the seed catalog and chains store actions.

The store is a class. Its fields are the React state variables plus
`savedRegisteredCourses` and `savedDropRequests`, which stand for the
`localStorage` entries. Each action is a method that replaces whole fields
with values built by pure list functions: `WithoutId`, `ReplaceById`,
`WithDropRequest`, `FindRequest` and `Resolve`. The properties worth having
are proved about those functions, and each method's `ensures` ties the new
state to them. The signup form is also a class. Everything else in the code
is expressions and is modelled as functions and lemmas.

Where the behaviour described for the system and the code differ, the model
follows the code:

- `checkTimeConflict` has no same-id exemption. A course with a proper
  interval conflicts with itself (`SelfConflict`); the page's id check runs
  first.
- `approveDrop` and `rejectDrop` do not check that the request is pending.
  Every request with the id is re-stamped, whatever its status, and
  `rejectDrop` writes the ledger even when no request matched.
- `deleteCourse` removes the course from the in-memory registered list but
  not from the stored one, and not from the drop ledger.
- Nothing enforces that a course starts before it ends. Facts that need it
  take it as a hypothesis.

## Model

| member | source | states |
|---|---|---|
| Js.TrimStartSpec | src/pages/auth/Signup.jsx:30-34 | dropping leading whitespace leaves the empty string exactly for a blank string, and otherwise starts with a non-space |
| Js.TrimEndSpec | src/pages/auth/Signup.jsx:30-34 | dropping trailing whitespace leaves the empty string exactly for a blank string, and otherwise ends with a non-space and keeps the first character |
| Js.TrimSpec | src/pages/auth/Signup.jsx:30-34 | `s.trim()` is empty exactly when `s` is all whitespace; a non-empty result begins and ends with a non-space; a string without whitespace is its own trim |
| Js.Trim | src/pages/auth/Signup.jsx:30-34 | `s.trim()`; its properties are stated by `TrimSpec` |
| Js.LowerChar | src/pages/student/Courses.jsx:16-18 | each upper-case ASCII letter maps to its own lower-case letter (code point plus 32) and every other character is unchanged |
| Js.ToLower | src/pages/student/Courses.jsx:16-18 | lower-casing keeps the length and maps each character by `LowerChar` |
| Js.IncludesEmpty | src/pages/student/Courses.jsx:16-18 | every string includes the empty search term |
| Js.IncludesFactor | src/pages/student/Courses.jsx:16-18 | a string includes each of its own factors |
| Js.Includes | src/pages/student/Courses.jsx:16-18 | `hay.includes(needle)`: the needle occurs at some offset; see `IncludesEmpty` and `IncludesFactor` |
| Js.ToNumberOfDigits | src/utils/checkTimeConflict.js:40 | `Number` of a string of ASCII digits is its decimal value read as an exact integer, without double rounding (0 for the empty string) |
| Js.ToNumber | src/utils/checkTimeConflict.js:40 | `Number(s)` on clock components; its value on digit strings is stated by `ToNumberOfDigits` |
| Js.Add | src/utils/checkTimeConflict.js:41 | a sum is finite exactly when both operands are, and is then their sum; NaN propagates |
| Js.Scale | src/utils/checkTimeConflict.js:41 | multiplying by a constant is finite exactly when the operand is; NaN propagates |
| Js.IsSpace | src/pages/auth/Signup.jsx:30-34 | the ECMAScript whitespace and line-terminator set that `trim` and `\s` use, listed by code point; `TrimSpec` and `EmailPatternShape` state its use |
| Js.Less | src/utils/checkTimeConflict.js:19 | `a < b` on numbers, false when either side is NaN; `NaNNeverConflicts` states the NaN case |
| Js.AtLeast | src/components/ScheduleGrid.jsx:26 | `a >= b` on numbers, false when either side is NaN; `ShownCourseCoversSlot` states its use |
| CourseModel.HasId | src/pages/student/Courses.jsx:27 | `registeredCourses.some((c) => c.id === course.id)` (also line 52): some entry has the id; `AfterRegister` and `HasConflictProbe` state its use |
| CourseModel.SubsequenceMembers | src/context/AppContext.jsx:76-80 | every element of a sub-sequence is an element of the list it was taken from |
| CourseModel.SubsequenceCons | src/pages/student/Courses.jsx:14-23 | keeping the head of a list extends a sub-sequence of its tail |
| CourseModel.SubsequenceSkip | src/pages/student/Courses.jsx:14-23 | dropping the head of a list keeps a sub-sequence of its tail |
| TimeConflict.FirstField | src/utils/checkTimeConflict.js:40 | the first field of `split(':')` is no longer than the string |
| TimeConflict.FirstFieldSpec | src/utils/checkTimeConflict.js:40 | the first field is the longest colon-free prefix: it has no colon, is a prefix, and is followed by a colon when shorter than the string |
| TimeConflict.TimeToMinutes | src/utils/checkTimeConflict.js:39-42 | `timeToMinutes`, also the grid's copy at src/components/ScheduleGrid.jsx:30-33; stated by `TimeToMinutesOfJoin`, `ClockToMinutes` and `NoColonIsNaN` |
| TimeConflict.FirstFieldOfJoin | src/utils/checkTimeConflict.js:40 | for a colon-free `h`, the first field of `h + ":" + rest` is `h` |
| TimeConflict.FirstFieldNoColon | src/utils/checkTimeConflict.js:40 | a string without a colon is its own first field |
| TimeConflict.TimeToMinutesOfJoin | src/utils/checkTimeConflict.js:39-42 | for `h + ":" + rest`, the minutes are `Number(h) * 60 + Number(first field of rest)` |
| TimeConflict.DigitsHaveNoColon | src/utils/checkTimeConflict.js:40 | a digit string contains no colon |
| TimeConflict.ClockToMinutes | src/utils/checkTimeConflict.js:39-42 | for digit strings `h` and `m`, `timeToMinutes(h + ":" + m)` is `h * 60 + m` |
| TimeConflict.NoColonIsNaN | src/utils/checkTimeConflict.js:39-42 | a string without a colon has no minutes component and converts to NaN |
| TimeConflict.Overlaps | src/utils/checkTimeConflict.js:19 | the strict overlap test; stated by `OverlapsSymmetric`, `BackToBackDoNotOverlap` and `OverlapsIffCommonMinute` |
| TimeConflict.OverlapsSymmetric | src/utils/checkTimeConflict.js:19 | the overlap test gives the same answer with the two intervals swapped |
| TimeConflict.BackToBackDoNotOverlap | src/utils/checkTimeConflict.js:19 | intervals where one ends exactly when the other starts do not overlap, whatever their order, inverted intervals included |
| TimeConflict.OverlapsIffCommonMinute | src/utils/checkTimeConflict.js:17-19 | for proper intervals the test holds exactly when the half-open intervals share a minute |
| TimeConflict.Conflicts | src/utils/checkTimeConflict.js:10-19 | same day and overlapping times; stated by `ConflictsSymmetric`, `SelfConflict` and `NaNNeverConflicts` |
| TimeConflict.ConflictsSymmetric | src/utils/checkTimeConflict.js:10-19 | conflict (same day and overlapping times) is symmetric |
| TimeConflict.SelfConflict | src/utils/checkTimeConflict.js:8-19 | with no same-id exemption, a course with start before end conflicts with itself |
| TimeConflict.NaNNeverConflicts | src/utils/checkTimeConflict.js:12-19 | a course with an unparseable start or end never conflicts, in either role |
| TimeConflict.CheckTimeConflict | src/utils/checkTimeConflict.js:7-32 | a conflict is reported exactly when some existing course conflicts with the new one; the reported course is one of them and conflicts; with no conflict the course is null |
| TimeConflict.CheckTimeConflictFirst | src/utils/checkTimeConflict.js:8-24 | the reported course is the earliest conflicting one in list order |
| TimeConflict.NoConflictWithNothing | src/utils/checkTimeConflict.js:28-31 | an empty list never conflicts and yields `{ false, null }` |
| TimeConflict.OtherDaysNeverConflict | src/utils/checkTimeConflict.js:10 | courses on other days never conflict, whatever their times |
| TimeConflict.ValidSchedule | src/pages/student/Courses.jsx:25-48 | the invariant the registration gate keeps: unique ids and no conflicting pair; preserved by `AfterRegisterKeepsValidSchedule` |
| TimeConflict.SubsequenceKeepsValidSchedule | src/context/AppContext.jsx:96-107 | keeping only some entries of a list with unique ids and no conflicting pair keeps both properties |
| AppContext.WithoutId | src/context/AppContext.jsx:96-99 | removing an id keeps every entry with another id as often as it occurs, and none with the id (multiset counts), in the original order (sub-sequence); a list without the id is unchanged |
| AppContext.WithoutIdIdempotent | src/context/AppContext.jsx:139-141 | removing the same id twice is removing it once |
| AppContext.WithoutIdKeepsValidSchedule | src/context/AppContext.jsx:139-145 | removing an id from a consistent registered list keeps it consistent |
| AppContext.WithoutIdStep | src/context/AppContext.jsx:97-99 | one step of the filter: the head is kept exactly when its id differs, with counts, membership and absence of the id carried over |
| AppContext.ReplaceById | src/context/AppContext.jsx:66-71 | the updated catalog has the same length; entries with the updated id are replaced and all others kept |
| AppContext.ReplaceByIdUnknownOrIds | src/context/AppContext.jsx:66-71 | an unknown id leaves the catalog unchanged, and the ids at every position are preserved |
| AppContext.WithDropRequest | src/context/AppContext.jsx:110-128 | after a request a drop for the course is pending; an existing pending request leaves the ledger unchanged; otherwise exactly one new pending record is appended |
| AppContext.WithDropRequestKeepsAtMostOnePending | src/context/AppContext.jsx:111-118 | requesting a drop keeps at most one pending request per course id |
| AppContext.PendingFor | src/context/AppContext.jsx:112-114 | `alreadyPending`; `WithDropRequest` states what it decides |
| AppContext.NewRequest | src/context/AppContext.jsx:119-125 | the record `requestDrop` creates; `FindNewRequest` and `RequestThenResolve` state what becomes of it |
| AppContext.AtMostOnePending | src/context/AppContext.jsx:111-118 | the ledger invariant the duplicate check keeps; preserved by `WithDropRequestKeepsAtMostOnePending` and `ResolveKeepsAtMostOnePending` |
| AppContext.FindRequest | src/context/AppContext.jsx:133-134 | `find` returns nothing exactly when no request has the id, and otherwise a request with that id |
| AppContext.FindRequestFirst | src/context/AppContext.jsx:133 | the request found is the first one with the id |
| AppContext.Resolve | src/context/AppContext.jsx:148-150 | the ledger keeps its length; every request with the id gets the new status and timestamp; all others are unchanged |
| AppContext.Resolved | src/context/AppContext.jsx:149 | `{ ...r, status, resolvedAt }` (also line 158): the request with the new status and timestamp and its other fields kept; `Resolve` states its use |
| AppContext.ResolveKeepsAtMostOnePending | src/context/AppContext.jsx:148-150 | approving or rejecting keeps at most one pending request per course id |
| AppContext.ResolveKeepsFind | src/context/AppContext.jsx:133-150 | after resolving, `find` returns the resolved version of the request found before |
| AppContext.FindNewRequest | src/context/AppContext.jsx:119-126 | a new request under an unused id is what `find` returns for that id |
| AppContext.RequestThenResolve | src/context/AppContext.jsx:110-163 | requesting a drop and then resolving it leaves the earlier ledger plus exactly one resolved record for the course |
| AppContext.AppState.constructor | src/context/AppContext.jsx:16-35 | initial state: nobody logged in, empty registered list, catalog set to the seed, ledger read from storage (empty when the key is unset), hidden toast |
| AppContext.AppState.ShowToast | src/context/AppContext.jsx:166-167 | the toast shows the given message and type |
| AppContext.AppState.Login | src/context/AppContext.jsx:38-48 | sets role and authentication; a student gets the stored list back when the key is set; otherwise the registered list is unchanged |
| AppContext.AppState.Logout | src/context/AppContext.jsx:50-54 | clears role, authentication and the in-memory registered list, and leaves storage alone |
| AppContext.AppState.AddCourse | src/context/AppContext.jsx:57-64 | appends the course under the fresh id; success toast |
| AppContext.AppState.UpdateCourse | src/context/AppContext.jsx:66-73 | the catalog becomes `ReplaceById` of the old one; success toast |
| AppContext.AppState.DeleteCourse | src/context/AppContext.jsx:75-82 | removes the id from the catalog and from the in-memory registered list only; a consistent registered list stays consistent |
| AppContext.AppState.RegisterCourse | src/context/AppContext.jsx:85-94 | appends the course, stores the new list, success toast |
| AppContext.AppState.UnregisterCourse | src/context/AppContext.jsx:96-107 | removes the id, stores the new list, keeps consistency, success toast |
| AppContext.AppState.RequestDrop | src/context/AppContext.jsx:110-130 | the ledger becomes `WithDropRequest`; a duplicate is refused with an info toast and no write; otherwise the ledger is stored; at most one pending request per course is preserved |
| AppContext.AppState.ApproveDrop | src/context/AppContext.jsx:132-154 | an unknown id changes nothing; otherwise the found course is removed from the stored list, which becomes both stored and in-memory, the ledger becomes `Resolve(..., Approved, ...)` and is stored, success toast; the pending invariant is preserved |
| AppContext.AppState.RejectDrop | src/context/AppContext.jsx:156-163 | the ledger becomes `Resolve(..., Rejected, ...)` and is always stored; the pending invariant is preserved; error toast |
| CoursesPage.FilteredCourses | src/pages/student/Courses.jsx:14-23 | the result is a sub-sequence of the catalog holding every matching course as often as the catalog does and no other course (multiset counts) |
| CoursesPage.Matches | src/pages/student/Courses.jsx:14-22 | the filter callback, search match and day match; `FilteredCourses` and `FilteredCoursesShowOnlyMatches` state its use |
| CoursesPage.MatchesSearch | src/pages/student/Courses.jsx:15-18 | the lower-cased term occurs in the lower-cased name, code or instructor; see `FilteredCoursesShowOnlyMatches` and `SearchByOwnCodeShowsCourse` |
| CoursesPage.MatchesDay | src/pages/student/Courses.jsx:20 | the day filter; see `FilteredCoursesShowOnlyMatches` |
| CoursesPage.FilteredCoursesShowOnlyMatches | src/pages/student/Courses.jsx:15-22 | every course shown is on the chosen day (unless `All`) and contains the lower-cased term in its name, code or instructor |
| CoursesPage.InitialFilterShowsAll | src/pages/student/Courses.jsx:10-23 | the initial empty search with `All` shows the whole catalog |
| CoursesPage.EmptySearchMatches | src/pages/student/Courses.jsx:10-22 | every course matches the empty search with `All` |
| CoursesPage.SearchByOwnCodeShowsCourse | src/pages/student/Courses.jsx:14-23 | searching for a catalog course's own code with `All` shows that course |
| CoursesPage.RegisterDecision | src/pages/student/Courses.jsx:25-48 | refused as already registered exactly when the id is present; refused for a conflict exactly when the id is new and the checker reports one, naming a registered course that conflicts; registered exactly when the id is new and nothing conflicts |
| CoursesPage.ConflictNamesFirst | src/pages/student/Courses.jsx:33-42 | a conflict refusal names the earliest conflicting registered course |
| CoursesPage.AfterRegister | src/pages/student/Courses.jsx:25-48 | the course is appended exactly when its id is not registered and no registered course conflicts with it; otherwise the list is unchanged |
| CoursesPage.AfterRegisterKeepsValidSchedule | src/pages/student/Courses.jsx:25-48 | registering through the gate keeps ids unique and leaves no conflicting pair |
| CoursesPage.RegisterAll | src/pages/student/Courses.jsx:25-48 | a sequence of attempts through the gate; stated by `RegisterAllKeepsValidSchedule` and `RegisterAllExtends` |
| CoursesPage.RegisterAllKeepsValidSchedule | src/pages/student/Courses.jsx:25-48 | any sequence of attempts through the gate keeps the list consistent |
| CoursesPage.RegisterAllExtends | src/pages/student/Courses.jsx:25-48 | attempts only append: the earlier list is a prefix of the result |
| CoursesPage.HasConflictProbe | src/pages/student/Courses.jsx:51-56 | a card is highlighted exactly when its id is not registered and some registered course conflicts with it |
| CoursesPage.ProbeAgreesWithGate | src/pages/student/Courses.jsx:25-56 | a card is highlighted exactly when the gate would refuse it for a conflict; an unregistered course is registered exactly when it is not highlighted |
| CoursesPage.ConflictMessage | src/pages/student/Courses.jsx:39-42 | the conflict toast text; `HandleRegister` and `SeedMessage` state its use and value |
| CoursesPage.HandleRegister | src/pages/student/Courses.jsx:25-48 | the registered list becomes `AfterRegister`; each refusal leaves storage alone and shows its error toast with the exact text; a registration stores the list and shows success; consistency is preserved |
| ScheduleGrid.Days | src/components/ScheduleGrid.jsx:6 | the five weekday columns; `SeedGrid` reads its first column |
| ScheduleGrid.TimeSlots | src/components/ScheduleGrid.jsx:6-16 | the nine hourly rows from 09:00 to 17:00; `SeedGrid` reads its first three rows |
| ScheduleGrid.GetCourseForSlot | src/components/ScheduleGrid.jsx:20-33 | no course is shown exactly when no registered course is on that day with the slot in `[start, end)`; a shown course is registered and covers the slot |
| ScheduleGrid.CoversSlot | src/components/ScheduleGrid.jsx:22-26 | same day and slot in `[start, end)`; see `ShownCourseCoversSlot` and `CommonSlotMeansConflict` |
| ScheduleGrid.GetCourseForSlotFirst | src/components/ScheduleGrid.jsx:21-27 | the shown course is the first covering one in list order |
| ScheduleGrid.ShownCourseCoversSlot | src/components/ScheduleGrid.jsx:22-26 | a shown course is on the cell's day, has started, and has not ended; the slot at its end time is not its own |
| ScheduleGrid.CommonSlotMeansConflict | src/components/ScheduleGrid.jsx:22-26 | two courses covering the same cell are a conflicting pair for the checker |
| ScheduleGrid.ConsistentScheduleShowsTheCoveringCourse | src/components/ScheduleGrid.jsx:20-28 | in a consistent list, the cell shows the unique course covering it, whatever the list order |
| ScheduleGrid.ShownAtItsStart | src/components/ScheduleGrid.jsx:20-28 | in a consistent list, a course with start before end is shown in its own start slot |
| PrivateRoute.DashboardFor | src/components/PrivateRoute.jsx:14-15 | students go to the student dashboard and every other role to the admin dashboard |
| PrivateRoute.PrivateRoute | src/components/PrivateRoute.jsx:5-20 | an unauthenticated visitor goes to `/login`; every redirect is to login or a dashboard |
| PrivateRoute.PublicRoute | src/components/PrivateRoute.jsx:23-32 | children are shown exactly to unauthenticated visitors; others go to their dashboard |
| PrivateRoute.PrivateRouteAdmits | src/components/PrivateRoute.jsx:8-19 | children are shown exactly to an authenticated user when the route names no role or the user has it; a wrong role goes to the user's dashboard |
| PrivateRoute.GuardsComplementary | src/components/PrivateRoute.jsx:5-32 | on a route naming no role, each visitor gets the children from exactly one of the two guards |
| PrivateRoute.RedirectLandsOnOwnDashboard | src/App.jsx:44-84 | for student and admin, every redirect lands on a dashboard whose guard admits them, so there is no second redirect |
| PrivateRoute.DashboardRole | src/App.jsx:44-84 | the role that guards each dashboard route; used by `RedirectLandsOnOwnDashboard` |
| Signup.FormData.With | src/pages/auth/Signup.jsx:21-23 | the edited field reads the new value and every other field is unchanged |
| Signup.EmailOfParts | src/pages/auth/Signup.jsx:32 | `local@host.tld` with non-empty parts free of whitespace and `@` matches the pattern |
| Signup.EmailPatternShape | src/pages/auth/Signup.jsx:32 | a matching address has exactly one `@` and is not blank |
| Signup.EmailPattern | src/pages/auth/Signup.jsx:32 | the regular expression `^[^\s@]+@[^\s@]+\.[^\s@]+$`; stated by `EmailOfParts` and `EmailPatternShape` |
| Signup.ValidateFields | src/pages/auth/Signup.jsx:28-45 | the error map holds exactly the fields with a message, each with its message |
| Signup.Validate | src/pages/auth/Signup.jsx:28-45 | `validate()`; stated by `ValidateFields`, the five per-field lemmas and `ValidateEmptyIffAcceptable` |
| Signup.NameError | src/pages/auth/Signup.jsx:30 | the name rule; stated by `ValidateName` |
| Signup.EmailError | src/pages/auth/Signup.jsx:31-33 | the email rules; stated by `ValidateEmail` |
| Signup.UsernameError | src/pages/auth/Signup.jsx:34-36 | the username rules; stated by `ValidateUsername` |
| Signup.PasswordError | src/pages/auth/Signup.jsx:37-39 | the password rules; stated by `ValidatePassword` |
| Signup.ConfirmError | src/pages/auth/Signup.jsx:40-43 | the confirmation rules; stated by `ValidateConfirm` |
| Signup.BlankTest | src/pages/auth/Signup.jsx:30-34 | `!s.trim()` holds exactly for blank strings |
| Signup.ValidateName | src/pages/auth/Signup.jsx:30 | the name fails exactly when blank, with "Full name is required" |
| Signup.ValidateEmail | src/pages/auth/Signup.jsx:31-33 | the email fails exactly when blank or not matching the pattern; the message is the first rule it fails |
| Signup.ValidateUsername | src/pages/auth/Signup.jsx:34-36 | the username fails exactly when blank or shorter than 3 characters before trimming; the message is the first rule it fails |
| Signup.ValidatePassword | src/pages/auth/Signup.jsx:37-39 | the password fails exactly when shorter than 6 characters; empty and short get distinct messages |
| Signup.ValidateConfirm | src/pages/auth/Signup.jsx:40-43 | the confirmation fails exactly when empty or different from the password; the message is the first rule it fails |
| Signup.ValidateEmptyIffAcceptable | src/pages/auth/Signup.jsx:28-45 | validation returns no errors exactly for a form meeting all five rules |
| Signup.Acceptable | src/pages/auth/Signup.jsx:28-45 | the five rules together; `ValidateEmptyIffAcceptable` ties it to `validate` |
| Signup.SignupForm.constructor | src/pages/auth/Signup.jsx:6-14 | the form starts with role `student`, empty fields and no errors |
| Signup.SignupForm.SelectRole | src/pages/auth/Signup.jsx:259 | the role toggle sets the selected role |
| Signup.SignupForm.HandleChange | src/pages/auth/Signup.jsx:21-26 | the edited field takes the value; its error, when shown and non-empty, becomes the empty string; nothing else changes |
| Signup.SignupForm.HandleSignup | src/pages/auth/Signup.jsx:47-58 | a failing form stores its errors and logs nobody in; an acceptable one logs in with the selected role and navigates to that role's dashboard |
| Dashboards.TotalCreditsAppend | src/pages/student/StudentDashboard.jsx:8-11 | the credit total of two lists one after the other is the sum of their totals |
| Dashboards.TotalCreditsFirst | src/pages/admin/AdminDashboard.jsx:9-12 | the left fold equals the first course's credits plus the total of the rest |
| Dashboards.TotalCreditsBounds | src/pages/student/StudentDashboard.jsx:8-11 | with non-negative credits the total is non-negative and at least each course's credits |
| Dashboards.TotalCredits | src/pages/student/StudentDashboard.jsx:8-11 | the credit `reduce`, also src/pages/admin/AdminDashboard.jsx:9-12; stated by `TotalCreditsAppend`, `TotalCreditsFirst` and `TotalCreditsBounds` |
| Dashboards.CountOnDay | src/pages/student/StudentDashboard.jsx:14-17 | a day's count never exceeds the number of courses |
| Dashboards.Lookup | src/pages/student/StudentDashboard.jsx:117 | `coursesByDay[day] \|\| 0`; see `TallyCounts` |
| Dashboards.Tally | src/pages/student/StudentDashboard.jsx:14-17 | the per-day `reduce`, also src/pages/admin/AdminDashboard.jsx:15-18; stated by `TallyCounts` |
| Dashboards.TallyCounts | src/pages/student/StudentDashboard.jsx:14-17 | the tally's shown value for each day is the number of courses on it (0 when missing); it has a key exactly for days with a course |
| Dashboards.SumCountsSnoc | src/pages/student/StudentDashboard.jsx:14-17 | one more course raises the sum over distinct days by one exactly when its day is listed |
| Dashboards.TallySumsToLength | src/pages/student/StudentDashboard.jsx:14-17 | over distinct days covering every course's day, the counts add up to the number of courses |
| Dashboards.SumCountsEmpty | src/pages/student/StudentDashboard.jsx:14-17 | with no courses every sum of counts is 0 |
| Dashboards.SumLookup | src/pages/student/StudentDashboard.jsx:110-117 | the sum of the five shown numbers; stated by `SumLookupOfTally` and `WeeklyDistributionSumsToTotal` |
| Dashboards.SumLookupOfTally | src/pages/student/StudentDashboard.jsx:110-117 | summing the shown values `coursesByDay[day] \|\| 0` is summing the per-day counts |
| Dashboards.WeeklyDistributionSumsToTotal | src/pages/student/StudentDashboard.jsx:110-117 | when every course is on a weekday, the five weekly numbers add up to the "Total Courses" card |
| Dashboards.Weekdays | src/pages/student/StudentDashboard.jsx:110 | the five weekday names of the weekly distribution; `WeekdaysDistinct` and `WeeklyDistributionSumsToTotal` state its use |
| Dashboards.WeekdaysDistinct | src/pages/student/StudentDashboard.jsx:110 | the five weekday names differ |
| Dashboards.Instructors | src/pages/admin/AdminDashboard.jsx:21 | the instructor set holds exactly the instructors of the catalog's courses |
| Dashboards.InstructorCountBounds | src/pages/admin/AdminDashboard.jsx:21 | there are at most as many distinct instructors as courses, and at least one for a non-empty catalog |
| Dashboards.Preview | src/pages/admin/AdminDashboard.jsx:97 | the preview is the first five courses, or all of them when there are fewer, in order |
| Dashboards.ShowViewAll | src/pages/admin/AdminDashboard.jsx:115 | `courseList.length > 5`; stated by `ViewAllIffTruncated` |
| Dashboards.ViewAllIffTruncated | src/pages/admin/AdminDashboard.jsx:97-115 | "View All" appears exactly when the preview leaves courses out |
| Scenarios.Clock | src/utils/checkTimeConflict.js:39-42 | a two-component digit clock string converts to `hours * 60 + minutes` |
| Scenarios.Clock0900 | src/data/mockCourses.js:10 | `09:00` is 540 minutes |
| Scenarios.Clock1000 | src/data/mockCourses.js:30 | `10:00` is 600 minutes |
| Scenarios.Clock1030 | src/data/mockCourses.js:11 | `10:30` is 630 minutes |
| Scenarios.Clock1100 | src/components/ScheduleGrid.jsx:10 | `11:00` is 660 minutes |
| Scenarios.Clock1130 | src/data/mockCourses.js:31 | `11:30` is 690 minutes |
| Scenarios.MondayTimes | src/data/mockCourses.js:3-32 | CS101 runs 540-630 and MATH201 600-690 in minutes |
| Scenarios.SeedOverlap | src/data/mockCourses.js:3-32 | the seed courses CS101 and MATH201 conflict both ways |
| Scenarios.SeedCheck | src/utils/checkTimeConflict.js:7-32 | with CS101 registered, the checker reports CS101 for MATH201 |
| Scenarios.SeedGate | src/pages/student/Courses.jsx:33-44 | the gate refuses MATH201 next to CS101, naming CS101 |
| Scenarios.SeedMessage | src/pages/student/Courses.jsx:39-42 | the refusal text is "Time conflict with CS101 on Monday" |
| Scenarios.SeedNoConflict | src/data/mockCourses.js:33-42 | PHYS101 on Wednesday conflicts with neither Monday course and is registered after CS101 |
| Scenarios.SeedGrid | src/components/ScheduleGrid.jsx:6-28 | in the grid's first column (Monday), CS101 fills the first two rows (09:00, 10:00) and not the third (11:00) |
| Scenarios.SeedGridStart | src/components/ScheduleGrid.jsx:6-28 | the Monday 09:00 cell shows CS101 |
| Scenarios.SeedGridMiddle | src/components/ScheduleGrid.jsx:6-28 | the Monday 10:00 cell shows CS101 |
| Scenarios.SeedGridAfter | src/components/ScheduleGrid.jsx:6-28 | the Monday 11:00 cell is empty, CS101 having ended at 10:30 |
| Scenarios.RegisterLogoutLogin | src/context/AppContext.jsx:38-54 | register, log out and log in again as a student: the list is the earlier one plus the course |
| Scenarios.DropRoundTrip | src/context/AppContext.jsx:110-154 | a drop requested for a course with nothing pending, then approved, removes the course from the stored and in-memory lists and appends one approved record to the stored ledger |
| Scenarios.ApproveTwice | src/context/AppContext.jsx:132-154 | a second approval of the same request leaves the registered lists as the first one did |

## Left out

- Rendering and navigation are not modelled: JSX, the layout, the sidebar, course cards, the toast component, and `navigate` beyond the path it is given. `Login.jsx`, `ManageCourses.jsx`, `Profile.jsx` and `Schedule.jsx` are not part of this model; their pages only call store actions that are modelled.
- `Date.now()` ids and `new Date().toISOString()` timestamps are method parameters (`freshId`, `now`). The 3-second timer that hides the toast is not modelled.
- `localStorage` is modelled as two `Option` fields, absent when the key is unset. JSON serialisation is taken to round-trip exactly.
- `Number` is modelled for the empty (or all-whitespace) string, which gives 0, and for strings of ASCII digits. Any other text is NaN. Signs, decimals, exponents, hex and `Infinity` are not modelled. Digit strings are read as exact integers, and `hours * 60 + minutes` is exact integer arithmetic; double rounding above 2^53 and the `Infinity` that a digit string of about 309 or more digits gives are not modelled.
- Only the first two `split(':')` fields are read, as in the code. `Number(undefined)` (no colon) is NaN.
- `toLowerCase` is modelled for ASCII letters only; other characters are kept. Lengths and the email pattern count `char` values, not UTF-16 code units.
- Whitespace for `trim` and `\s` is the ECMAScript WhiteSpace and LineTerminator set, listed by code point.
- Credits are unbounded integers. JavaScript floating-point addition is not modelled, and a non-number `credits` value is left out.
- Day keys of the tally object are strings. A day named like an `Object.prototype` property is not modelled.
- AppContext.AppState.ApproveDrop: its ensures does not restate that the stored list stays consistent. That follows from its ensures together with `WithoutIdKeepsValidSchedule`.
- The drop ledger's at-most-one-pending invariant is proved for the store's own actions. A ledger read from storage is only assumed to satisfy it where an ensures says `old(AtMostOnePending(...)) ==>`.
