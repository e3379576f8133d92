/** The route set the application registers (fopd/routes.py): accounts, logins and courses.

    Each handler resolves rows, checks them, assigns fields and commits. A `Fail` reply or a
    `Crash` leaves the database as it was; a commit that violates a unique constraint is caught
    and answered with `Fail`. */
module LiveRoutes {
  import opened Basics
  import opened Models
  import opened Api
  import opened Roster
  import opened Cascade

  // ---------------------------------------------------------------- students

  /** `delete_student_account`: delete the student with that public id. */
  method DeleteStudentAccount(db: Database, studentId: Id) returns (r: Reply<string>)
    requires db.Valid()
    modifies db
    ensures db.Valid()
    ensures r.Ok? <==> studentId in old(db.students)
    ensures r.Ok? ==> db.Rows() == RemoveStudent(old(db.Rows()), studentId) && ActivitiesUnchanged(db)
    ensures !r.Ok? ==> unchanged(db) && r == Fail("Account id: " + studentId + " does not exist")
  {
    if studentId in db.students {
      var after := RemoveStudent(db.Rows(), studentId);
      RemoveStudentConsistent(db.Rows(), studentId);
      db.students, db.courses := after.students, after.courses;
      r := Ok("Account id: `" + studentId + "` has been deleted");
    } else {
      r := Fail("Account id: " + studentId + " does not exist");
    }
  }

  /** `register_student_account`: `username` and `password` are read with `[]`; the teacher is
      named by `teacher_username`; a username already taken under that same teacher is refused
      early, one taken under another teacher is refused by the unique constraint at commit. */
  method RegisterStudentAccount(db: Database, json: Option<AccountForm>, newId: Id) returns (r: Reply<Profile>)
    requires db.Valid()
    modifies db
    ensures db.Valid()
    ensures !r.Ok? ==> unchanged(db)
    ensures json.None? ==> r == Crash(TypeError)
    ensures json.Some? && json.value.username.None? ==> r == Crash(KeyError("username"))
    ensures json.Some? && json.value.username.Some? && json.value.password.None? ==> r == Crash(KeyError("password"))
    ensures r.Ok? <==>
      && json.Some? && json.value.username.Some? && json.value.password.Some?
      && TeacherNamedIfGiven(old(db.teachers), json.value.teacherUsername).Some?
      && json.value.password.value != ""
      && (forall s :: s in old(db.students) ==> old(db.students)[s].username != json.value.username.value)
      && newId !in old(db.students)
    ensures json.Some? && json.value.username.Some? && json.value.password.Some?
            && TeacherNamedIfGiven(old(db.teachers), json.value.teacherUsername).None?
            ==> r == Fail("Unable to create account")
    ensures json.Some? && json.value.username.Some? && json.value.password.Some?
            && (exists s :: s in old(db.students) && old(db.students)[s].username == json.value.username.value
                       && Some(old(db.students)[s].teacher) == TeacherNamedIfGiven(old(db.teachers), json.value.teacherUsername))
            ==> r == Fail("Username already exists under another student")
    ensures json.Some? && json.value.username.Some? && json.value.password == Some("")
            && TeacherNamedIfGiven(old(db.teachers), json.value.teacherUsername).Some?
            && !(exists s :: s in old(db.students) && old(db.students)[s].username == json.value.username.value
                       && Some(old(db.students)[s].teacher) == TeacherNamedIfGiven(old(db.teachers), json.value.teacherUsername))
            ==> r == Crash(ValueError)
    ensures json.Some? && json.value.username.Some? && json.value.password.Some? && json.value.password.value != ""
            && TeacherNamedIfGiven(old(db.teachers), json.value.teacherUsername).Some?
            && !(exists s :: s in old(db.students) && old(db.students)[s].username == json.value.username.value
                       && Some(old(db.students)[s].teacher) == TeacherNamedIfGiven(old(db.teachers), json.value.teacherUsername))
            && ((exists s :: s in old(db.students) && old(db.students)[s].username == json.value.username.value)
                || newId in old(db.students))
            ==> r == Fail("Unable to create account")
    ensures r.Ok? ==>
      var f := json.value;
      var teacher := TeacherNamedIfGiven(old(db.teachers), f.teacherUsername).value;
      && db.students == old(db.students)[newId := Student(f.username.value, Hash(f.password.value), f.fname.GetOr(NoName), f.lname.GetOr(NoName), teacher)]
      && db.teachers == old(db.teachers) && db.courses == old(db.courses) && ActivitiesUnchanged(db)
      && r.value == Profile(f.username.value, newId, f.fname.GetOr(NoName), f.lname.GetOr(NoName))
  {
    if json.None? {
      return Crash(TypeError);
    }
    var form := json.value;
    if form.username.None? {
      return Crash(KeyError("username"));
    }
    if form.password.None? {
      return Crash(KeyError("password"));
    }
    var username, password := form.username.value, form.password.value;
    var fname, lname := form.fname.GetOr(NoName), form.lname.GetOr(NoName);
    var teacher := TeacherNamedIfGiven(db.teachers, form.teacherUsername);
    if teacher.None? {
      return Fail("Unable to create account");
    }
    var existing := StudentNamed(db.students, username);
    if existing.Some? && db.teachers[db.students[existing.value].teacher].username == form.teacherUsername.value {
      return Fail("Username already exists under another student");
    }
    if password == "" {
      return Crash(ValueError);
    }
    // the commit violates the unique constraint on `username` or on `public_id`
    if existing.Some? || newId in db.students {
      return Fail("Unable to create account");
    }
    db.students := db.students[newId := Student(username, Hash(password), fname, lname, teacher.value)];
    r := Ok(Profile(username, newId, fname, lname));
  }

  /** `update_student_account`: the student is found by the body's `username`, not by the
      `student_id` of the path; a requested new teacher is looked up by that same `username`. */
  method UpdateStudentAccount(db: Database, studentId: Id, json: Option<AccountForm>) returns (r: Reply<Profile>)
    requires db.Valid()
    modifies db
    ensures db.Valid()
    ensures !r.Ok? ==> unchanged(db)
    ensures json.None? ==> r == Crash(TypeError)
    ensures json.Some? && json.value.username.None? ==> r == Crash(KeyError("username"))
    ensures json.Some? && json.value.username.Some? && json.value.password.None? ==> r == Crash(KeyError("password"))
    ensures json.Some? && json.value.username.Some? && json.value.password.Some?
            && StudentNamed(old(db.students), json.value.username.value).None?
            ==> r == Fail("Account does not exist")
    ensures r.Ok? <==>
      && json.Some? && json.value.username.Some? && json.value.password.Some?
      && StudentNamed(old(db.students), json.value.username.value).Some?
      && (AsksOtherTeacher(old(db.Rows()), json.value, StudentNamed(old(db.students), json.value.username.value).value)
          ==> TeacherNamed(old(db.teachers), json.value.username.value).Some?)
      && json.value.password.value != ""
    ensures json.Some? && json.value.username.Some? && json.value.password == Some("")
            && StudentNamed(old(db.students), json.value.username.value).Some?
            && (AsksOtherTeacher(old(db.Rows()), json.value, StudentNamed(old(db.students), json.value.username.value).value)
                ==> TeacherNamed(old(db.teachers), json.value.username.value).Some?)
            ==> r == Crash(ValueError)
    ensures r.Ok? ==>
      var f := json.value;
      var s := StudentNamed(old(db.students), f.username.value).value;
      var teacher := if AsksOtherTeacher(old(db.Rows()), f, s)
                     then TeacherNamed(old(db.teachers), f.username.value)
                     else Some(old(db.students)[s].teacher);
      && teacher.Some?
      && db.students == old(db.students)[s := Student(f.username.value, Hash(f.password.value), f.fname.GetOr(NoName), f.lname.GetOr(NoName), teacher.value)]
      && db.teachers == old(db.teachers) && db.courses == old(db.courses) && ActivitiesUnchanged(db)
      && r.value == Profile(f.username.value, s, f.fname.GetOr(NoName), f.lname.GetOr(NoName))
    ensures r.Fail? ==> r.message == "Account does not exist"
    ensures json.Some? && json.value.username.Some? && json.value.password.Some?
            && StudentNamed(old(db.students), json.value.username.value).Some?
            && AsksOtherTeacher(old(db.Rows()), json.value, StudentNamed(old(db.students), json.value.username.value).value)
            && TeacherNamed(old(db.teachers), json.value.username.value).None?
            ==> r == Fail("Account does not exist")
  {
    if json.None? {
      return Crash(TypeError);
    }
    var form := json.value;
    if form.username.None? {
      return Crash(KeyError("username"));
    }
    if form.password.None? {
      return Crash(KeyError("password"));
    }
    var username, password := form.username.value, form.password.value;
    var fname, lname := form.fname.GetOr(NoName), form.lname.GetOr(NoName);
    var student := StudentNamed(db.students, username);
    if student.None? {
      return Fail("Account does not exist");
    }
    var s := student.value;
    var teacher := db.students[s].teacher;
    if Truthy(form.teacherUsername) && form.teacherUsername.value != db.teachers[teacher].username {
      var newTeacher := TeacherNamed(db.teachers, username);
      if newTeacher.None? {
        return Fail("Account does not exist");
      }
      teacher := newTeacher.value;
    }
    if password == "" {
      return Crash(ValueError);
    }
    db.students := db.students[s := Student(username, Hash(password), fname, lname, teacher)];
    r := Ok(Profile(username, s, fname, lname));
  }

  // ---------------------------------------------------------------- teachers

  /** `update_teacher_account`: a full overwrite of the teacher's username, password and names. */
  method UpdateTeacherAccount(db: Database, teacherId: Id, json: Option<AccountForm>) returns (r: Reply<Profile>)
    requires db.Valid()
    modifies db
    ensures db.Valid()
    ensures !r.Ok? ==> unchanged(db)
    ensures json.None? ==> r == Crash(TypeError)
    ensures json.Some? && json.value.username.None? ==> r == Crash(KeyError("username"))
    ensures json.Some? && json.value.username.Some? && json.value.password.None? ==> r == Crash(KeyError("password"))
    ensures r.Ok? <==>
      && json.Some? && json.value.username.Some? && json.value.password.Some?
      && teacherId in old(db.teachers) && json.value.password.value != ""
      && (forall t :: t in old(db.teachers) && old(db.teachers)[t].username == json.value.username.value ==> t == teacherId)
    ensures json.Some? && json.value.username.Some? && json.value.password == Some("") && teacherId in old(db.teachers)
            ==> r == Crash(ValueError)
    ensures json.Some? && json.value.username.Some? && json.value.password.Some? && teacherId !in old(db.teachers)
            ==> r == Fail("Account does not exist")
    ensures json.Some? && json.value.username.Some? && json.value.password.Some? && json.value.password.value != ""
            && teacherId in old(db.teachers)
            && (exists t :: t in old(db.teachers) && t != teacherId && old(db.teachers)[t].username == json.value.username.value)
            ==> r == Fail("Unable to update account")
    ensures r.Ok? ==>
      var f := json.value;
      && db.teachers == old(db.teachers)[teacherId := Teacher(f.username.value, Hash(f.password.value), f.fname.GetOr(NoName), f.lname.GetOr(NoName))]
      && db.students == old(db.students) && db.courses == old(db.courses) && ActivitiesUnchanged(db)
      && r.value == Profile(f.username.value, teacherId, f.fname.GetOr(NoName), f.lname.GetOr(NoName))
  {
    if json.None? {
      return Crash(TypeError);
    }
    var form := json.value;
    if form.username.None? {
      return Crash(KeyError("username"));
    }
    if form.password.None? {
      return Crash(KeyError("password"));
    }
    var username, password := form.username.value, form.password.value;
    var fname, lname := form.fname.GetOr(NoName), form.lname.GetOr(NoName);
    if teacherId !in db.teachers {
      return Fail("Account does not exist");
    }
    if password == "" {
      return Crash(ValueError);
    }
    // the commit violates the unique constraint on `username`
    var holder := TeacherNamed(db.teachers, username);
    if holder.Some? && holder.value != teacherId {
      return Fail("Unable to update account");
    }
    db.teachers := db.teachers[teacherId := Teacher(username, Hash(password), fname, lname)];
    r := Ok(Profile(username, teacherId, fname, lname));
  }

  /** `register_teacher_account`: refused when a teacher already has the username. */
  method RegisterTeacherAccount(db: Database, json: Option<AccountForm>, newId: Id) returns (r: Reply<Profile>)
    requires db.Valid()
    modifies db
    ensures db.Valid()
    ensures !r.Ok? ==> unchanged(db)
    ensures json.None? ==> r == Crash(TypeError)
    ensures json.Some? && json.value.username.None? ==> r == Crash(KeyError("username"))
    ensures json.Some? && json.value.username.Some? && json.value.password.None? ==> r == Crash(KeyError("password"))
    ensures json.Some? && json.value.username.Some? && json.value.password == Some("") ==> r == Crash(ValueError)
    ensures json.Some? && json.value.username.Some? && json.value.password.Some? && json.value.password.value != ""
            && TeacherNamed(old(db.teachers), json.value.username.value).Some?
            ==> r == Fail("Username already exists!")
    ensures json.Some? && json.value.username.Some? && json.value.password.Some? && json.value.password.value != ""
            && TeacherNamed(old(db.teachers), json.value.username.value).None? && newId in old(db.teachers)
            ==> r == Fail("Unable to create account")
    ensures r.Ok? <==>
      && json.Some? && json.value.username.Some? && json.value.password.Some? && json.value.password.value != ""
      && TeacherNamed(old(db.teachers), json.value.username.value).None?
      && newId !in old(db.teachers)
    ensures r.Ok? ==>
      var f := json.value;
      && db.teachers == old(db.teachers)[newId := Teacher(f.username.value, Hash(f.password.value), f.fname.GetOr(NoName), f.lname.GetOr(NoName))]
      && db.students == old(db.students) && db.courses == old(db.courses) && ActivitiesUnchanged(db)
      && r.value == Profile(f.username.value, newId, f.fname.GetOr(NoName), f.lname.GetOr(NoName))
  {
    if json.None? {
      return Crash(TypeError);
    }
    var form := json.value;
    if form.username.None? {
      return Crash(KeyError("username"));
    }
    if form.password.None? {
      return Crash(KeyError("password"));
    }
    var username, password := form.username.value, form.password.value;
    var fname, lname := form.fname.GetOr(NoName), form.lname.GetOr(NoName);
    // the password is hashed before the username is checked
    if password == "" {
      return Crash(ValueError);
    }
    if TeacherNamed(db.teachers, username).Some? {
      return Fail("Username already exists!");
    }
    // the commit violates the unique constraint on `public_id`
    if newId in db.teachers {
      return Fail("Unable to create account");
    }
    db.teachers := db.teachers[newId := Teacher(username, Hash(password), fname, lname)];
    r := Ok(Profile(username, newId, fname, lname));
  }

  /** `delete_teacher_account`: the teacher goes, with the rows that cascade from it. */
  method DeleteTeacherAccount(db: Database, teacherId: Id) returns (r: Reply<string>)
    requires db.Valid()
    modifies db
    ensures db.Valid()
    ensures r.Ok? <==> teacherId in old(db.teachers)
    ensures r.Ok? ==> db.Rows() == RemoveTeacher(old(db.Rows()), teacherId) && ActivitiesUnchanged(db)
    ensures !r.Ok? ==> unchanged(db) && r == Fail("Account id: " + teacherId + " does not exist")
  {
    if teacherId in db.teachers {
      var after := RemoveTeacher(db.Rows(), teacherId);
      RemoveTeacherConsistent(db.Rows(), teacherId);
      db.teachers, db.students, db.courses := after.teachers, after.students, after.courses;
      r := Ok("Account id: `" + teacherId + "` has been deleted");
    } else {
      r := Fail("Account id: " + teacherId + " does not exist");
    }
  }

  // ---------------------------------------------------------------- logins

  /** The text Python gives an optional field in an f-string. */
  function Shown(field: Option<string>): (text: string)
    ensures field.Some? ==> text == field.value
    ensures field.None? ==> text == "None"
  {
    if field.Some? then field.value else "None"
  }

  /** `student_login`: the reply carries the constant token `'token'`. */
  function StudentLogin(students: map<Id, Student>, json: Option<AccountForm>): (r: Reply<string>)
    requires StudentUsernamesUnique(students)
    ensures json.None? ==> r == Crash(AttributeError("get"))
    ensures r.Ok? ==> r.value == "token"
    ensures r.Ok? <==>
      && json.Some? && json.value.username.Some? && json.value.password.Some?
      && exists s :: s in students && students[s].username == json.value.username.value
                     && Matches(students[s].password, json.value.password.value)
    ensures json.Some? && (json.value.username.None? || StudentNamed(students, json.value.username.value).None?)
            ==> r == Fail("Invalid username `" + Shown(json.value.username) + "`")
    ensures json.Some? && json.value.username.Some? && StudentNamed(students, json.value.username.value).Some?
            ==> var s := StudentNamed(students, json.value.username.value).value;
                && (json.value.password.None? ==> r == Crash(TypeError))
                && (json.value.password.Some? && !Matches(students[s].password, json.value.password.value)
                    ==> r == Fail("Invalid password"))
  {
    if json.None? then Crash(AttributeError("get"))
    else
      var form := json.value;
      var student := if form.username.Some? then StudentNamed(students, form.username.value) else None;
      if student.None? then Fail("Invalid username `" + Shown(form.username) + "`")
      // `check_password_hash` raises on a password of None
      else if form.password.None? then Crash(TypeError)
      else if Matches(students[student.value].password, form.password.value) then Ok("token")
      else Fail("Invalid password")
  }

  /** `teacher_login`: the reply carries the constant token `'token'`. */
  function TeacherLogin(teachers: map<Id, Teacher>, json: Option<AccountForm>): (r: Reply<string>)
    requires TeacherUsernamesUnique(teachers)
    ensures json.None? ==> r == Crash(AttributeError("get"))
    ensures r.Ok? ==> r.value == "token"
    ensures r.Ok? <==>
      && json.Some? && json.value.username.Some? && json.value.password.Some?
      && exists t :: t in teachers && teachers[t].username == json.value.username.value
                     && Matches(teachers[t].password, json.value.password.value)
    ensures json.Some? && (json.value.username.None? || TeacherNamed(teachers, json.value.username.value).None?)
            ==> r == Fail("Invalid username `" + Shown(json.value.username) + "`")
    ensures json.Some? && json.value.username.Some? && TeacherNamed(teachers, json.value.username.value).Some?
            ==> var t := TeacherNamed(teachers, json.value.username.value).value;
                && (json.value.password.None? ==> r == Crash(TypeError))
                && (json.value.password.Some? && !Matches(teachers[t].password, json.value.password.value)
                    ==> r == Fail("Invalid password"))
  {
    if json.None? then Crash(AttributeError("get"))
    else
      var form := json.value;
      var teacher := if form.username.Some? then TeacherNamed(teachers, form.username.value) else None;
      if teacher.None? then Fail("Invalid username `" + Shown(form.username) + "`")
      else if form.password.None? then Crash(TypeError)
      else if Matches(teachers[teacher.value].password, form.password.value) then Ok("token")
      else Fail("Invalid password")
  }

  /** A teacher that registration has just added logs in with the password it registered,
      and with no other. */
  lemma RegisteredTeacherLogsIn(teachers: map<Id, Teacher>, newId: Id, form: AccountForm, password: string)
    requires TeacherUsernamesUnique(teachers) && newId !in teachers
    requires form.username.Some? && form.password.Some? && form.password.value != ""
    requires TeacherNamed(teachers, form.username.value).None?
    ensures var after := teachers[newId := Teacher(form.username.value, Hash(form.password.value), form.fname.GetOr(NoName), form.lname.GetOr(NoName))];
      && TeacherUsernamesUnique(after)
      && TeacherLogin(after, Some(form)) == Ok("token")
      && (password != form.password.value ==> TeacherLogin(after, Some(form.(password := Some(password)))) == Fail("Invalid password"))
  {
    var after := teachers[newId := Teacher(form.username.value, Hash(form.password.value), form.fname.GetOr(NoName), form.lname.GetOr(NoName))];
    forall a, b | a in after && b in after && after[a].username == after[b].username
      ensures a == b
    {
      if a != newId && b != newId {
        assert teachers[a].username == teachers[b].username;
      }
    }
    assert after[newId].username == form.username.value;
    assert TeacherNamed(after, form.username.value) == Some(newId);
  }

  /** A student that registration has just added logs in with the password it registered,
      and with no other. */
  lemma RegisteredStudentLogsIn(students: map<Id, Student>, newId: Id, form: AccountForm, teacher: Id, password: string)
    requires StudentUsernamesUnique(students) && newId !in students
    requires form.username.Some? && form.password.Some? && form.password.value != ""
    requires StudentNamed(students, form.username.value).None?
    ensures var after := students[newId := Student(form.username.value, Hash(form.password.value), form.fname.GetOr(NoName), form.lname.GetOr(NoName), teacher)];
      && StudentUsernamesUnique(after)
      && StudentLogin(after, Some(form)) == Ok("token")
      && (password != form.password.value ==> StudentLogin(after, Some(form.(password := Some(password)))) == Fail("Invalid password"))
  {
    var after := students[newId := Student(form.username.value, Hash(form.password.value), form.fname.GetOr(NoName), form.lname.GetOr(NoName), teacher)];
    forall a, b | a in after && b in after && after[a].username == after[b].username
      ensures a == b
    {
      if a != newId && b != newId {
        assert students[a].username == students[b].username;
      }
    }
    assert after[newId].username == form.username.value;
    assert StudentNamed(after, form.username.value) == Some(newId);
  }

  // ---------------------------------------------------------------- courses

  /** The checks every course route makes before touching a course, in this order: the
      teacher exists, the course exists, the course belongs to the teacher. */
  function CourseAccess(r: Tables, courseId: Id, teacherId: Id): (refusal: Option<string>)
    ensures refusal.None? <==> teacherId in r.teachers && courseId in r.courses && r.courses[courseId].teacher == teacherId
    ensures teacherId !in r.teachers ==> refusal == Some("Account does not exist")
    ensures teacherId in r.teachers && courseId !in r.courses ==> refusal == Some("Course does not exist")
    ensures teacherId in r.teachers && courseId in r.courses && r.courses[courseId].teacher != teacherId
            ==> refusal == Some("Teacher does not have permission to access this course")
  {
    if teacherId !in r.teachers then Some("Account does not exist")
    else if courseId !in r.courses then Some("Course does not exist")
    else if r.courses[courseId].teacher != teacherId then Some("Teacher does not have permission to access this course")
    else None
  }

  /** `get_teacher_course_by_id`: the course's name and id with its teacher, after the checks. */
  function GetTeacherCourseById(r: Tables, courseId: Id, teacherId: Id): (reply: Reply<CourseHeader>)
    ensures reply.Ok? <==> CourseAccess(r, courseId, teacherId).None?
    ensures !reply.Ok? ==> reply.Fail? && Some(reply.message) == CourseAccess(r, courseId, teacherId)
    ensures reply.Ok? ==> reply.value.id == courseId && reply.value.teacher == teacherId && reply.value.name == r.courses[courseId].name
  {
    match CourseAccess(r, courseId, teacherId)
    case Some(message) => Fail(message)
    case None => Ok(CourseHeader(r.courses[courseId].name, courseId, teacherId))
  }

  /** `delete_course_by_teacher`: the course goes, with the students on its roster. */
  method DeleteCourseByTeacher(db: Database, courseId: Id, teacherId: Id) returns (r: Reply<string>)
    requires db.Valid()
    modifies db
    ensures db.Valid()
    ensures r.Ok? <==> CourseAccess(old(db.Rows()), courseId, teacherId).None?
    ensures !r.Ok? ==> r.Fail? && Some(r.message) == CourseAccess(old(db.Rows()), courseId, teacherId)
    ensures r.Ok? ==> db.Rows() == RemoveCourse(old(db.Rows()), courseId) && ActivitiesUnchanged(db)
    ensures !r.Ok? ==> unchanged(db)
  {
    var refusal := CourseAccess(db.Rows(), courseId, teacherId);
    if refusal.Some? {
      return Fail(refusal.value);
    }
    var after := RemoveCourse(db.Rows(), courseId);
    RemoveCourseConsistent(db.Rows(), courseId);
    db.students, db.courses := after.students, after.courses;
    r := Ok("Course id: `" + courseId + "` has been deleted");
  }

  /** `register_course`: a course with an empty roster for the teacher named in the body. */
  method RegisterCourse(db: Database, json: Option<CourseForm>, newId: Id) returns (r: Reply<CourseHeader>)
    requires db.Valid()
    modifies db
    ensures db.Valid()
    ensures !r.Ok? ==> unchanged(db)
    ensures json.None? ==> r == Crash(TypeError)
    ensures json.Some? && json.value.name.None? ==> r == Crash(KeyError("name"))
    ensures json.Some? && json.value.name.Some? && json.value.teacherUsername.None? ==> r == Crash(KeyError("teacher_username"))
    ensures json.Some? && json.value.name.Some? && json.value.teacherUsername.Some?
            && TeacherNamed(old(db.teachers), json.value.teacherUsername.value).None?
            ==> r == Fail("Account does not exist")
    ensures json.Some? && json.value.name.Some? && json.value.teacherUsername.Some?
            && TeacherNamed(old(db.teachers), json.value.teacherUsername.value).Some? && newId in old(db.courses)
            ==> r == Fail("Course cannot be created")
    ensures r.Ok? <==>
      && json.Some? && json.value.name.Some? && json.value.teacherUsername.Some?
      && TeacherNamed(old(db.teachers), json.value.teacherUsername.value).Some?
      && newId !in old(db.courses)
    ensures r.Ok? ==>
      var f := json.value;
      var teacher := TeacherNamed(old(db.teachers), f.teacherUsername.value).value;
      && db.courses == old(db.courses)[newId := Course(f.name.value, teacher, [])]
      && db.teachers == old(db.teachers) && db.students == old(db.students) && ActivitiesUnchanged(db)
      && r.value == CourseHeader(f.name.value, newId, teacher)
  {
    if json.None? {
      return Crash(TypeError);
    }
    var form := json.value;
    if form.name.None? {
      return Crash(KeyError("name"));
    }
    if form.teacherUsername.None? {
      return Crash(KeyError("teacher_username"));
    }
    var teacher := TeacherNamed(db.teachers, form.teacherUsername.value);
    if teacher.None? {
      return Fail("Account does not exist");
    }
    // the commit violates the unique constraint on `public_id`
    if newId in db.courses {
      return Fail("Course cannot be created");
    }
    db.courses := db.courses[newId := Course(form.name.value, teacher.value, [])];
    r := Ok(CourseHeader(form.name.value, newId, teacher.value));
  }

  /** `update_course`: after the access checks the roster is emptied, and the first lookup's
      autoflush deletes its former students. The roster becomes exactly the listed usernames
      that still name a student, in list order; if none does, the update is refused and
      rolled back; otherwise the name is overwritten and all of it is committed. */
  method UpdateCourse(db: Database, courseId: Id, teacherId: Id, json: Option<CourseForm>) returns (r: Reply<CourseRoster>)
    requires db.Valid()
    modifies db
    ensures db.Valid()
    ensures !r.Ok? ==> unchanged(db)
    ensures CourseAccess(old(db.Rows()), courseId, teacherId).Some? ==> r == Fail(CourseAccess(old(db.Rows()), courseId, teacherId).value)
    ensures CourseAccess(old(db.Rows()), courseId, teacherId).None? && json.None? ==> r == Crash(TypeError)
    ensures CourseAccess(old(db.Rows()), courseId, teacherId).None? && json.Some? && json.value.studentUsernames.None?
            ==> r == Crash(KeyError("student_usernames"))
    ensures CourseAccess(old(db.Rows()), courseId, teacherId).None? && json.Some? && json.value.studentUsernames.Some?
            ==> var found := ResolveUsernames(ClearRoster(old(db.Rows()), courseId).students, json.value.studentUsernames.value);
                && (found == [] ==> r == Fail("Unable to update course information"))
                && (found != [] && json.value.name.None? ==> r == Crash(KeyError("name")))
    ensures r.Ok? <==>
      && CourseAccess(old(db.Rows()), courseId, teacherId).None?
      && json.Some? && json.value.studentUsernames.Some? && json.value.name.Some?
      && ResolveUsernames(ClearRoster(old(db.Rows()), courseId).students, json.value.studentUsernames.value) != []
    ensures r.Ok? ==>
      var f := json.value;
      var cleared := ClearRoster(old(db.Rows()), courseId);
      var roster := ResolveUsernames(cleared.students, f.studentUsernames.value);
      && db.Rows() == RenameCourse(AssignRoster(cleared, courseId, roster), courseId, f.name.value)
      && db.courses[courseId] == Course(f.name.value, teacherId, roster)
      && (forall s :: s in old(db.courses[courseId].students) ==> s !in db.students)
      && ActivitiesUnchanged(db)
      && r.value == CourseRoster(f.name.value, courseId, roster)
  {
    var refusal := CourseAccess(db.Rows(), courseId, teacherId);
    if refusal.Some? {
      return Fail(refusal.value);
    }
    if json.None? {
      return Crash(TypeError);
    }
    var form := json.value;
    if form.studentUsernames.None? {
      return Crash(KeyError("student_usernames"));
    }
    // the lookups run after the autoflush has deleted the former students
    ClearRosterConsistent(db.Rows(), courseId);
    var cleared := ClearRoster(db.Rows(), courseId);
    var roster := CollectStudentsByUsername(cleared.students, form.studentUsernames.value);
    if |roster| == 0 {
      return Fail("Unable to update course information");
    }
    if form.name.None? {
      return Crash(KeyError("name"));
    }
    StoreCourse(db, courseId, roster, form.name.value);
    r := Ok(CourseRoster(form.name.value, courseId, roster));
  }

  /** A list that names only students on the course's current roster resolves to no student
      once the autoflush has deleted that roster, so the live `update_course` refuses to
      re-send a course its own roster, and the blueprint one empties it. */
  lemma ResubmittedRosterResolvesToNothing(r: Tables, c: Id, names: seq<string>)
    requires Consistent(r) && c in r.courses
    requires forall n :: n in names ==> exists s :: s in r.courses[c].students && s in r.students && r.students[s].username == n
    ensures Consistent(ClearRoster(r, c))
    ensures ResolveUsernames(ClearRoster(r, c).students, names) == []
  {
    var cleared := ClearRoster(r, c);
    ClearRosterConsistent(r, c);
    forall x | x in cleared.students ensures cleared.students[x].username !in names {
      assert x in r.students && x !in r.courses[c].students && cleared.students[x] == r.students[x];
    }
    ResolveUsernamesEmpty(cleared.students, names);
  }

  /** The write both `update_course` handlers commit: the former students of the course are
      deleted, the course gets the new roster and then the new name, and the store stays
      consistent. */
  method StoreCourse(db: Database, courseId: Id, roster: seq<Id>, name: string)
    requires db.Valid() && courseId in db.courses
    requires forall s :: s in roster ==> s in ClearRoster(db.Rows(), courseId).students
    modifies db
    ensures db.Valid()
    ensures db.Rows() == RenameCourse(AssignRoster(ClearRoster(old(db.Rows()), courseId), courseId, roster), courseId, name)
    ensures db.courses[courseId] == Course(name, old(db.courses[courseId].teacher), roster)
    ensures forall s :: s in old(db.courses[courseId].students) ==> s !in db.students
    ensures ActivitiesUnchanged(db)
  {
    var next := RenameCourse(AssignRoster(ClearRoster(db.Rows(), courseId), courseId, roster), courseId, name);
    ReplaceRosterConsistent(db.Rows(), courseId, roster, name);
    db.Store(next);
  }
}
