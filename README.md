# fopd: the request handlers over the relational store

fopd is a Flask back end for a classroom plant-growing platform. Teachers and students have
accounts. Teachers keep courses with a student roster, and they run experiments and set
assignments. Students answer assignments with responses. Each HTTP handler does the same
things, in this order:

1. find rows by `public_id` or by `username`;
2. check that they exist and that the path's teacher owns them;
3. check the JSON body and its required fields;
4. assign fields or association lists;
5. commit.

When a check fails, the handler answers `{'status': 'fail', 'message': ...}` and nothing is
persisted. A Python exception escapes as an HTTP 500, and nothing is committed then either.

This Dafny project models the following:

- **The store.** `Models.Database` is a class with one map per table, keyed by public id. The
  handlers reassign these maps. `Models.Consistent` states the declared invariants of
  fopd/models.py: unique teacher and student usernames, a student's non-null teacher, a
  course's non-null teacher, and that roster members exist. A student's single `course_id`
  becomes the rule that a student is on at most one roster. `public_id` is unique by
  construction, because it is the map key. The constructor establishes the invariant and
  every handler preserves it.
- **The ORM's effect on delete and on roster assignment** (module `Cascade`). Each is a pure
  transition over the three declared tables. Each has a lemma that it preserves consistency,
  and lemmas that say exactly which rows go or move. `Course.students` is `delete-orphan`, so
  `update_course`'s `course.students = []` followed by the autoflush of its first lookup
  deletes every student on the old roster before any username is looked up (`ClearRoster`).
- **The roster loops** (module `Roster`). The handlers build an association list by looking
  up each listed username or id with `.first()`. These loops are `while` loops proved equal
  to a specification function. Lemmas prove that function's properties: membership,
  compatibility with concatenation (list order), and when it is empty.
- **Every handler the route files define that writes, logs in or checks ownership.** The
  live route set is fopd/routes.py (module `LiveRoutes`). The blueprint revisions are
  modules `Teachers`, `Students`, `Courses`, `Experiments`, `Assignments` and
  `AssignmentResponses`. A handler that changes the store is a method on `Database`'s
  state. Its contract gives:
  - every refusal, with its exact message;
  - every escaping exception (`Basics.Fault`), including a later `KeyError` or a commit that
    violates a unique constraint;
  - when the reply is `Ok`, as an if-and-only-if;
  - the exact new tables on `Ok`;
  - `unchanged(db)` otherwise.
  Read-only handlers are functions over the maps.
- **`HttpService._validateDate`** (module `HttpService`). It is modelled with Python's
  `str.split` and an ASCII model of `int()`. It returns `Returns(bool)` or
  `RaisesIndexError`. Lemmas give its outcome on dates written `YYYY-MM-DD` and on the
  inputs where it misbehaves.

The source bugs are reproduced as written:

- `update_student_account` looks the student up by the body's `username`, and looks a new
  teacher up by that same username.
- The blueprint `register_course` calls `.get` on a `Course`, so it never creates a course.
- `get_experiment_by_id` and `delete_experiment` filter without `.first()`, so they always
  raise once the teacher exists.
- `update_assignment` appends a query object, so it raises for any non-empty `student_ids`.
- `update_experiment` has no ownership check.
- `add_comment_to_assignment_response` checks neither that the response belongs to the
  assignment nor that the teacher owns the assignment.
- The blueprint `update_course` accepts an empty roster, because the check that refused one
  is commented out; the live one refuses it.
- Both `update_course` handlers empty the roster before looking up the usernames, and the
  lookup's autoflush deletes the former students as orphans, so no student on the old roster
  can be put back on it by the same request. Re-sending a course its own roster makes the
  live handler fail and roll back, and makes the blueprint handler commit an empty roster
  with those students deleted.

The blueprint delete handlers for teachers, students and courses are the same code as the
live ones, so they are modelled once, by the `LiveRoutes` members.

## Model

| member | source | states |
|---|---|---|
| Models.TeacherNamed | fopd/models.py:7 | `filter_by(username=...).first()` on teachers: finds a teacher with that username, and returns none exactly when no teacher has it; unique usernames make the answer the only candidate |
| Models.StudentNamed | fopd/models.py:23 | the same lookup for students; usernames are unique over the whole student table, not per teacher |
| Models.TeacherNamedIfGiven | fopd/routes.py:89-96 | a teacher is found exactly when `teacher_username` is given and some teacher has it |
| Models.Database.Store | fopd/routes.py:647-649 | a commit of consistent new contents: the three declared tables become exactly those contents, and the experiment, assignment and response tables stay as they were |
| Models.Database.constructor | fopd/models.py:3-44 | the empty store satisfies every declared invariant |
| Roster.ResolveUsernames | fopd/routes.py:623-637 | the roster built from `student_usernames` is no longer than the list, and every entry is an existing student |
| Roster.ResolveUsernamesMembers | fopd/routes.py:625-629 | a student is on the built roster exactly when it exists and its username is listed |
| Roster.ResolveUsernamesConcat | fopd/routes.py:625-629 | the roster follows list order: resolving `a + b` gives the result for `a` followed by the result for `b` |
| Roster.ResolveUsernamesEmpty | fopd/routes.py:640-644 | the built roster is empty exactly when no listed username names a student |
| Roster.CollectStudentsByUsername | fopd/routes.py:623-637 | the lookup loop over `student_usernames` returns exactly `ResolveUsernames` of the list |
| Roster.ResolvePublicIds | fopd/assignments/routes.py:157-172 | the students attached from `student_ids` are exactly the listed ids that name a student, and the result is no longer than the list |
| Roster.ResolvePublicIdsConcat | fopd/assignments/routes.py:159-165 | attaching follows list order: resolving `a + b` gives the result for `a` followed by the result for `b` |
| Roster.CollectStudentsByPublicId | fopd/assignments/routes.py:157-172 | the lookup loop over `student_ids` returns exactly `ResolvePublicIds` of the list |
| Cascade.RemoveStudent | fopd/routes.py:14-18 | deleting a student removes exactly that row, keeps every other student and every teacher as they were, takes it off every roster, and loses no course |
| Cascade.RemoveStudentConsistent | fopd/models.py:19-44 | deleting a student preserves every store invariant |
| Cascade.RemoveCourse | fopd/models.py:44 | deleting a course removes it and every student on its roster; every other student is kept unchanged |
| Cascade.RemoveCourseConsistent | fopd/models.py:35-44 | deleting a course preserves every store invariant |
| Cascade.CascadedStudents | fopd/models.py:13-14 | the students a teacher's delete reaches: its own, and those on its courses' rosters |
| Cascade.RemoveTeacher | fopd/models.py:13-14 | deleting a teacher removes exactly that teacher; the surviving students and course names are unchanged |
| Cascade.RemoveTeacherLeavesNoOwnedRows | fopd/models.py:13-14 | after the delete, no student or course refers to the teacher, and every student of the teacher or on one of its rosters is gone |
| Cascade.RemoveTeacherKeepsTheRest | fopd/models.py:13-14 | every other teacher, every course of another teacher, and every student the cascade does not reach survives |
| Cascade.RemoveTeacherConsistent | fopd/models.py:3-44 | deleting a teacher preserves every store invariant |
| Cascade.RemoveTeacherKeepsOwners | fopd/models.py:29-42 | after a teacher's delete, every surviving student and course still has an existing teacher |
| Cascade.RemoveTeacherKeepsRosters | fopd/models.py:30-44 | after a teacher's delete, rosters list only existing students, each on at most one roster |
| Cascade.ClearRoster | fopd/routes.py:623-626 | `course.students = []` and the autoflush of the next query: the course keeps its name and teacher with an empty roster, every student on the old roster is deleted, every other student and course is unchanged |
| Cascade.ClearRosterConsistent | fopd/models.py:30-44 | emptying a roster and deleting its orphans preserves every store invariant |
| Cascade.AssignRoster | fopd/routes.py:625-629 | appending the listed students to `course.students` changes no teacher, student, course name or course owner; the handlers apply it to the cleared roster |
| Cascade.AssignRosterPlacement | fopd/models.py:30-44 | after the assignment, the course's roster is the new list, a student is on that course exactly when listed, and other rosters lose only listed students |
| Cascade.AssignRosterConsistent | fopd/models.py:30-44 | assigning a roster of existing students preserves every store invariant |
| Cascade.RenameCourse | fopd/routes.py:646 | overwriting `course.name` changes that course's name and nothing else |
| Cascade.RenameCourseConsistent | fopd/models.py:35-44 | renaming a course preserves every store invariant |
| LiveRoutes.ResubmittedRosterResolvesToNothing | fopd/routes.py:623-644 | a list naming only students on the course's current roster resolves to no student, so the live handler refuses it |
| LiveRoutes.StoreCourse | fopd/routes.py:623-649 | the write both `update_course` handlers commit: the former students are deleted, the course gets the new roster and then the new name, its teacher is kept, and the store stays consistent |
| Cascade.ReplaceRosterConsistent | fopd/routes.py:623-649 | `update_course`'s whole write (clear and delete the old roster, assign surviving students, rename) leaves a consistent store in which the course has exactly the new name, its old teacher and the new roster, and no former student is left |
| LiveRoutes.DeleteStudentAccount | fopd/routes.py:11-27 | succeeds exactly when the student exists, and then removes it as `RemoveStudent` says; otherwise fails with the source's message and changes nothing; the blueprint handler at fopd/students/routes.py:15-31 is the same code |
| LiveRoutes.RegisterStudentAccount | fopd/routes.py:78-136 | raises on a missing body, username or password. Fails with no change when `teacher_username` names no teacher, and early when the username is taken under that teacher. After those checks an empty password raises `ValueError` at hashing. A username held under another teacher, or a taken id, fails at commit with "Unable to create account". Succeeds exactly when the teacher exists, the password is non-empty, no student has the username and the id is fresh; then adds exactly the new student, with names defaulting to `'No name'` |
| LiveRoutes.UpdateStudentAccount | fopd/routes.py:139-193 | finds the student by the body's `username`, failing when none has it; once the student (and any new teacher) is found, an empty password raises `ValueError` at hashing. Succeeds exactly when those lookups succeed and the password is non-empty, and then overwrites that student's username, password and names; the teacher changes only when a differing `teacher_username` is given, to the teacher found by the student's own username |
| LiveRoutes.UpdateTeacherAccount | fopd/routes.py:241-283 | raises on a missing body, username or password; fails on an unknown id; an empty password then raises `ValueError` at hashing; a username another teacher has fails at commit with "Unable to update account". Succeeds exactly when the password is non-empty and no other teacher has the username, and then overwrites that teacher's username, password and names, and nothing else |
| LiveRoutes.RegisterTeacherAccount | fopd/routes.py:286-332 | raises on a missing body, username or password. An empty password raises `ValueError`, because the password is hashed before the username is checked. Fails with nothing created when the username exists, or with "Unable to create account" when the id is taken. Otherwise adds exactly one teacher with the hashed password |
| LiveRoutes.DeleteTeacherAccount | fopd/routes.py:334-352 | succeeds exactly when the teacher exists, and then applies the cascade `RemoveTeacher`; otherwise fails and changes nothing; the blueprint handler at fopd/teachers/routes.py:176-195 is the same code |
| LiveRoutes.StudentLogin | fopd/routes.py:355-380 | succeeds exactly when a student has the username and the password matches its hash, and then returns the constant `'token'`; an unknown or absent username fails with its message; a known username with a missing password raises `TypeError`, and with a wrong one fails with "Invalid password"; a missing body raises |
| LiveRoutes.TeacherLogin | fopd/routes.py:382-407 | the same for teachers, including the `TypeError` on a missing password and "Invalid password" on a wrong one |
| LiveRoutes.RegisteredTeacherLogsIn | fopd/routes.py:286-407 | the teacher row that registration adds keeps usernames unique, logs in with the registered password, and is refused any other password |
| LiveRoutes.RegisteredStudentLogsIn | fopd/routes.py:78-380 | the student row that registration adds keeps usernames unique, logs in with the registered password, and is refused any other password |
| LiveRoutes.Shown | fopd/routes.py:366 | an f-string shows a given username as itself and an absent one as `None` |
| LiveRoutes.CourseAccess | fopd/routes.py:600-618 | the owner check passes exactly when the teacher exists, the course exists and the course is the teacher's; otherwise it gives the message of the first failed check, in that order |
| LiveRoutes.GetTeacherCourseById | fopd/routes.py:452-488 | succeeds exactly when the owner check passes, and then returns that course's name and id with its teacher; otherwise returns the check's message |
| LiveRoutes.DeleteCourseByTeacher | fopd/routes.py:515-551 | succeeds exactly when the owner check passes, and then deletes the course with the students on its roster; otherwise fails with the check's message and no change; the blueprint handler at fopd/courses/routes.py:142-178 is the same code |
| LiveRoutes.RegisterCourse | fopd/routes.py:553-595 | raises on a missing body, name or teacher username; fails with "Account does not exist" when the teacher is unknown, and with "Course cannot be created" when the id is taken. Otherwise adds exactly one course of that teacher, with an empty roster |
| LiveRoutes.UpdateCourse | fopd/routes.py:597-664 | fails with no change unless the owner check passes. It raises on a missing body or missing `student_usernames`. It fails, rolled back, when no listed username names a student that survives the deletion of the old roster, and raises `KeyError("name")` after that. Succeeds exactly when the owner check passes, the fields are present and some username resolves. Then the old roster's students are deleted, the roster is exactly the resolving usernames in list order, moved off other rosters, and the name is overwritten |
| Teachers.UpdateTeacherAccount | fopd/teachers/routes.py:59-111 | refuses a falsy body, then fails with no change on an unknown id. An empty password then raises `ValueError` at hashing, and a username another teacher has fails with "Unable to update account". Otherwise a full overwrite of username, password and names, with absent names becoming `'No name'` |
| Teachers.RegisterTeacherAccount | fopd/teachers/routes.py:113-174 | fails with nothing created on a falsy body, an empty username or password, an existing username, or (with "Unable to create account") a taken id. Otherwise adds exactly one teacher |
| Teachers.TeacherLogin | fopd/teachers/routes.py:197-242 | fails on a falsy body or an empty field, on an unknown username (naming it) and on a wrong password. Succeeds exactly when a teacher has the username and the password matches, and then returns the given token and that teacher's profile |
| Students.RegisterStudentAccount | fopd/students/routes.py:97-171 | fails with nothing created on a falsy body, an empty username or password, an unknown teacher, or a username taken under that teacher; a username held under another teacher, or a taken id, fails at commit with "Unable to create account". On success it adds exactly one student linked to the teacher, with names defaulting to `'No name'` |
| Students.UpdateStudentAccount | fopd/students/routes.py:173-236 | refuses a falsy body. Finds the student by the body's `username`, not by the path id, failing when there is none. The teacher changes only when a differing `teacher_username` is given, to the teacher found by the student's username, and the update fails when there is none. Once the lookups succeed, an empty password raises `ValueError` at hashing |
| Students.StudentLogin | fopd/students/routes.py:238-283 | fails on a falsy body, an empty field, an unknown username or a wrong password. On success it returns the given token and that student's profile |
| Courses.GetTeacherCourseById | fopd/courses/routes.py:55-103 | succeeds exactly when the owner check passes; the reply lists the roster and `num_students` equals its length |
| Courses.RegisterCourse | fopd/courses/routes.py:180-260 | never succeeds. Fails on a falsy body, or with "Account does not exist" on an unknown teacher, raises `KeyError` on a missing field, and raises `AttributeError` at `course.get` exactly when the teacher exists |
| Courses.UpdateCourse | fopd/courses/routes.py:262-337 | fails with no change unless the owner check passes and the body is non-falsy, and raises `KeyError("name")` when the name is missing. Otherwise it succeeds: the old roster's students are deleted, the roster is exactly the usernames that still resolve, in list order (possibly none), and the name is overwritten |
| Experiments.GetExperimentById | fopd/experiments/routes.py:58-112 | never succeeds. Fails exactly when the teacher is unknown, and otherwise raises `AttributeError` on the query object, so "Experiment does not exist" is never answered |
| Experiments.DeleteExperiment | fopd/experiments/routes.py:114-150 | never deletes. Fails exactly when the teacher is unknown, and otherwise raises `AttributeError` |
| Experiments.CreateExperiment | fopd/experiments/routes.py:152-224 | fails on an unknown teacher or a falsy body; raises `KeyError` on a missing title, description or plant, in that order; fails with "Unable to create experiment" on a taken id. On success it adds exactly one experiment of that teacher, linked to the resolving usernames in list order, with `start_date` defaulting to `now` |
| Experiments.UpdateExperiment | fopd/experiments/routes.py:226-307 | needs the teacher, the experiment and a body, but not ownership. Fails when no username resolves, and then raises `KeyError` on a missing title, plant or description, in that order. On success it replaces the students with the resolving usernames and overwrites title, plant and description, and nothing else |
| Assignments.CreateAssignment | fopd/assignments/routes.py:131-203 | fails on an unknown teacher or a falsy body; raises `KeyError` on a missing title, description, type or due date, in that order; fails with "Assignment not created" on a taken id. On success it adds exactly one assignment with the resolving `student_ids` in list order, and `num_students` equals their number |
| Assignments.AssignmentAccess | fopd/assignments/routes.py:208-226 | passes exactly when the teacher and the assignment exist and the assignment is the teacher's; otherwise it gives the first failed check's message |
| Assignments.Overwrite | fopd/assignments/routes.py:240-250 | a field takes the body's value when it is truthy and keeps its value otherwise |
| Assignments.Revise | fopd/assignments/routes.py:235-250 | each of title, type, description and due_date is overwritten only by a truthy value; teacher and students are kept |
| Assignments.ReviseWithNothingTruthy | fopd/assignments/routes.py:240-250 | a body with no truthy field leaves the assignment as it was |
| Assignments.ReviseIdempotent | fopd/assignments/routes.py:235-250 | applying the same body twice is the same as applying it once |
| Assignments.UpdateAssignment | fopd/assignments/routes.py:205-295 | fails with no change unless the owner check passes and the body is non-falsy. Any non-empty `student_ids` raises before the commit. Otherwise only the truthy fields are overwritten |
| Assignments.DeleteAssignment | fopd/assignments/routes.py:297-333 | fails (never raises) with no change on an unknown teacher, an unknown assignment or a non-owner, with the first failed check's message; otherwise it removes exactly the assignment |
| AssignmentResponses.EntryFor | fopd/assignment_responses/routes.py:25-30 | an entry carries the response's id, submission time and student, and its comments, or `''` when it has none |
| AssignmentResponses.GetAllResponsesByAssignment | fopd/assignment_responses/routes.py:15-55 | fails with "Experiment does not exist", and never raises, exactly when the assignment is unknown. Otherwise it lists every response of the assignment, each exactly once, and nothing else |
| AssignmentResponses.GatheringStep | fopd/assignment_responses/routes.py:15-55 | listing one more response of the assignment keeps every listed entry that response's own entry, each once, and leaves no response of the assignment unlisted and not pending |
| AssignmentResponses.Names | fopd/assignment_responses/routes.py:109 | a response matches the path exactly when it exists and its assignment and student are the path's |
| AssignmentResponses.UpdateStudentResponse | fopd/assignment_responses/routes.py:106-148 | fails with no change when no response matches the three ids, or on a falsy body. A truthy `response` replaces the response and stamps `submitted` with `now`, and otherwise both are kept. `comments` is overwritten only by a truthy value |
| AssignmentResponses.AddCommentToAssignmentResponse | fopd/assignment_responses/routes.py:150-209 | checks, in order, that the assignment, the response and the teacher exist, but not that they belong together. Raises on a missing body and fails on missing or empty comments, with a message naming the response. Otherwise it sets only that response's comments |
| HttpService.Split | fopd/services/http_service.py:54 | `str.split(sep)` yields at least one part, and no part contains the separator |
| HttpService.JoinSplit | fopd/services/http_service.py:54 | joining the parts with the separator gives back the text |
| HttpService.SplitJoin | fopd/services/http_service.py:54 | splitting a join of separator-free parts gives back the parts |
| HttpService.SplitCount | fopd/services/http_service.py:54 | there is one more part than there are separators |
| HttpService.SplitWithout | fopd/services/http_service.py:54 | a text without the separator is a single part |
| HttpService.SplitPrefix | fopd/services/http_service.py:54 | a separator-free prefix followed by the separator is the first part |
| HttpService.SplitAppend | fopd/services/http_service.py:54 | splitting `a + sep + b` gives the parts of `a` followed by the parts of `b` |
| HttpService.SplitThree | fopd/services/http_service.py:54 | a text with exactly two dashes splits into its three pieces |
| HttpService.Strip | fopd/services/http_service.py:59-60 | the whitespace `int()` ignores: the result is no longer than the text, neither starts nor ends with a space, and a text already without surrounding spaces is kept |
| HttpService.StripOnlySpaces | fopd/services/http_service.py:59-60 | stripping removes only spaces, and only at the two ends: the result is a slice of the text with spaces before and after it |
| HttpService.PyInt | fopd/services/http_service.py:59-60 | `int()` succeeds exactly when the stripped text is a numeral, optionally after one `+` or `-`, and then gives its value with that sign |
| HttpService.PyIntNumeral | fopd/services/http_service.py:59-60 | `int()` reads a bare numeral as its value |
| HttpService.TwoDigitsParse | fopd/services/http_service.py:59-60 | `int()` reads a two-digit field back as the number written |
| HttpService.ValidateDate | fopd/services/http_service.py:53-70 | raises `IndexError` exactly when the first part has 4 characters and there is only one part, or two parts with a parsable month. A `True` answer means the first part has 4 characters, the month has 2 characters and parses to 0..12, and the day parses to 0..31 |
| HttpService.ValidateThreeParts | fopd/services/http_service.py:53-70 | for a date of three parts the answer is exactly: the year part has length 4, month and day parse, the month has 2 characters and is in 0..12, and the day is in 0..31; `endDate` plays no part |
| HttpService.ValidateWrittenDate | fopd/services/http_service.py:53-70 | a date written `YYYY-MM-DD` passes exactly when month <= 12 and day <= 31, whatever the four year characters are, so month `00` and day `00` pass |
| HttpService.ValidateIgnoresExtraParts | fopd/services/http_service.py:54-60 | anything after a third dash does not change the answer |
| HttpService.ValidateOneDigitMonth | fopd/services/http_service.py:64-65 | a one-digit month is refused even when it is valid |
| HttpService.ValidateSpacedMonth | fopd/services/http_service.py:59-65 | a month written as a space and one digit has length 2 and parses, so it passes |
| HttpService.ValidatePaddedDay | fopd/services/http_service.py:67-68 | the day's length is not checked: any number of leading zeros passes |
| HttpService.LeadingZeros | fopd/services/http_service.py:60 | leading zeros do not change the value `int()` reads |
| HttpService.ValidateMissingDay | fopd/services/http_service.py:58-62 | a date with no day part raises `IndexError`, which the handler does not catch, instead of answering `False` |

## Left out

- Password hashing is a foreign library. `Models.Hash` keeps only the password it was
  computed from, and `Models.Matches` compares against it; the bcrypt salt is not modelled.
  bcrypt's refusal of an empty password is modelled: a handler that hashes an empty password
  replies `Crash(ValueError)`, and `Models.Hash` is only called on a non-empty one.
- `uuid4`, `uuid1` and `datetime.utcnow()` become parameters (`newId`, `token`, `now`). A
  `newId` that already exists stands for the commit failing on the unique `public_id`.
- Flask routing, HTTP status codes, JSON serialisation and the clashes between route
  patterns are not modelled. A reply is `Ok(payload)`, `Fail(message)` or `Crash(fault)`.
- JSON `null` and non-string field values are not modelled: a body field is absent or a
  string (or a list of strings for the student lists).
- Response payloads carry public ids where the source nests `fname`, `lname` and
  `username` for students and teachers. The text of a success message is not modelled.
- Read-only GET handlers other than the owner checks above only project fields, and are not
  modelled: listing teachers, students, courses, experiments and assignments, and a
  student's own responses.
- Experiment, assignment and response mappings are not part of fopd/models.py. The model
  gives them no foreign-key invariant and no cascade, and the teacher, student and course
  cascades do not touch them.
- AssignmentResponses.UpdateStudentResponse reads the `assignment_id` and `student_id`
  columns that fopd/assignment_responses/routes.py:109 filters on as public ids. The
  response mapping is not part of this model, and the declared mappings use integer keys for
  such columns, so this is an assumption.
- Duplicates in a many-to-many list: a username listed twice appears twice on the built
  roster, as the ORM list would before the commit. What the database keeps of such a list
  is not modelled.
- AssignmentResponses.GetAllResponsesByAssignment: the order of the listing is the order of
  the ORM relationship, which the model leaves open. It promises the set of entries and that
  each appears once, not their order.
- HttpService.PyInt models `int()` on ASCII text only. Unicode digits and Unicode
  whitespace, which `int()` also accepts, are not modelled.
- The network and file code of `HttpService` (`login`, `getObservations`, `getImage`) is not
  modelled. fopd/external/routes.py, fopd/services/jsonparser.py, run.py, fopd/config.py,
  fopd/__init__.py, the root models.py and the migrations are not part of this model.
- Session, transaction and rollback behaviour is not modelled beyond this: a reply other
  than `Ok` leaves the store unchanged. Concurrency between requests is not modelled.
