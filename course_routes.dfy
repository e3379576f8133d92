/** The course blueprint (fopd/courses/routes.py). It makes the same access checks as the live
    routes (`LiveRoutes.CourseAccess`), and its `delete_course_by_teacher` is the live handler
    `LiveRoutes.DeleteCourseByTeacher`. Its `register_course` calls `.get` on the new `Course`
    object, which has no such method, so it never creates a course; its `update_course`
    accepts an empty roster, because the check that refused one is commented out. */
module Courses {
  import opened Basics
  import opened Models
  import opened Api
  import opened Roster
  import opened Cascade
  import opened LiveRoutes

  /** `get_teacher_course_by_id`: the course with its roster and the roster's length. */
  function GetTeacherCourseById(r: Tables, courseId: Id, teacherId: Id): (reply: Reply<CourseView>)
    ensures reply.Ok? <==> CourseAccess(r, courseId, teacherId).None?
    ensures !reply.Ok? ==> reply.Fail? && Some(reply.message) == CourseAccess(r, courseId, teacherId)
    ensures reply.Ok? ==>
      && reply.value.id == courseId && reply.value.teacher == teacherId
      && reply.value.name == r.courses[courseId].name
      && reply.value.students == r.courses[courseId].students
      && reply.value.numStudents == |reply.value.students|
  {
    match CourseAccess(r, courseId, teacherId)
    case Some(message) => Fail(message)
    case None =>
      var course := r.courses[courseId];
      Ok(CourseView(course.name, courseId, teacherId, course.students, |course.students|))
  }

  /** `register_course`: refuses a falsy body and an unknown teacher; with a known teacher it
      raises `AttributeError` at `course.get`, before anything is added to the session. */
  function RegisterCourse(teachers: map<Id, Teacher>, json: Option<CourseForm>): (r: Reply<CourseHeader>)
    requires TeacherUsernamesUnique(teachers)
    ensures !r.Ok?
    ensures NoCourseInfo(json) ==> r == Fail("No course information provided")
    ensures !NoCourseInfo(json) && json.value.name.None? ==> r == Crash(KeyError("name"))
    ensures !NoCourseInfo(json) && json.value.name.Some? && json.value.teacherUsername.None?
            ==> r == Crash(KeyError("teacher_username"))
    ensures r.Fail? && !NoCourseInfo(json) ==> r.message == "Account does not exist"
    ensures !NoCourseInfo(json) && json.value.name.Some? && json.value.teacherUsername.Some?
            && TeacherNamed(teachers, json.value.teacherUsername.value).None?
            ==> r == Fail("Account does not exist")
    ensures !NoCourseInfo(json) && json.value.name.Some? && json.value.teacherUsername.Some?
            ==> (r == Crash(AttributeError("get")) <==> TeacherNamed(teachers, json.value.teacherUsername.value).Some?)
  {
    if NoCourseInfo(json) then Fail("No course information provided")
    else
      var form := json.value;
      if form.name.None? then Crash(KeyError("name"))
      else if form.teacherUsername.None? then Crash(KeyError("teacher_username"))
      else if TeacherNamed(teachers, form.teacherUsername.value).None? then Fail("Account does not exist")
      else Crash(AttributeError("get"))
  }

  /** `update_course`: after the access checks and a non-falsy body the roster is emptied, and
      the first lookup's autoflush (or, with no username listed, the commit) deletes its former
      students. The roster becomes exactly the listed usernames that still name a student, in
      list order (possibly none), and the name is overwritten. */
  method UpdateCourse(db: Database, courseId: Id, teacherId: Id, json: Option<CourseForm>) returns (r: Reply<CourseRoster>)
    requires db.Valid()
    modifies db
    ensures db.Valid()
    ensures !r.Ok? ==> unchanged(db)
    ensures CourseAccess(old(db.Rows()), courseId, teacherId).Some? ==> r == Fail(CourseAccess(old(db.Rows()), courseId, teacherId).value)
    ensures CourseAccess(old(db.Rows()), courseId, teacherId).None? && NoCourseInfo(json)
            ==> r == Fail("No course information provided to update course `" + courseId + "`")
    ensures CourseAccess(old(db.Rows()), courseId, teacherId).None? && !NoCourseInfo(json) && json.value.name.None?
            ==> r == Crash(KeyError("name"))
    ensures r.Ok? <==>
      && CourseAccess(old(db.Rows()), courseId, teacherId).None?
      && !NoCourseInfo(json) && json.value.name.Some?
    ensures r.Ok? ==>
      var f := json.value;
      var cleared := ClearRoster(old(db.Rows()), courseId);
      var roster := ResolveUsernames(cleared.students, f.studentUsernames.GetOr([]));
      && db.Rows() == RenameCourse(AssignRoster(cleared, courseId, roster), courseId, f.name.value)
      && db.courses[courseId] == Course(f.name.value, teacherId, roster)
      && (forall s :: s in old(db.courses[courseId].students) ==> s !in db.students)
      && ActivitiesUnchanged(db)
      && r.value == CourseRoster(f.name.value, courseId, roster)
  {
    var refusal := CourseAccess(db.Rows(), courseId, teacherId);
    if refusal.Some? {
      return Fail(refusal.value);
    }
    if NoCourseInfo(json) {
      return Fail("No course information provided to update course `" + courseId + "`");
    }
    var form := json.value;
    // the lookups run after the autoflush has deleted the former students
    ClearRosterConsistent(db.Rows(), courseId);
    var cleared := ClearRoster(db.Rows(), courseId);
    var roster := CollectStudentsByUsername(cleared.students, form.studentUsernames.GetOr([]));
    if form.name.None? {
      return Crash(KeyError("name"));
    }
    StoreCourse(db, courseId, roster, form.name.value);
    r := Ok(CourseRoster(form.name.value, courseId, roster));
  }
}
