/** The student blueprint (fopd/students/routes.py). It refuses a falsy body first, reads
    `username` and `password` with a default of `''` when registering and logging in, and its
    login returns a fresh token with the student's profile. Its `delete_student_account` is the
    live handler `LiveRoutes.DeleteStudentAccount`. */
module Students {
  import opened Basics
  import opened Models
  import opened Api

  /** `register_student_account`: the teacher is named by `teacher_username`; a username taken
      under that same teacher is refused early, one taken under another teacher is refused by
      the unique constraint at commit. */
  method RegisterStudentAccount(db: Database, json: Option<AccountForm>, newId: Id) returns (r: Reply<Profile>)
    requires db.Valid()
    modifies db
    ensures db.Valid()
    ensures !r.Ok? ==> unchanged(db)
    ensures NoAccountInfo(json) ==> r == Fail("No account information provided")
    ensures !NoAccountInfo(json) && !(Truthy(json.value.username) && Truthy(json.value.password))
            ==> r == Fail("No username or password provided")
    ensures !NoAccountInfo(json) && Truthy(json.value.username) && Truthy(json.value.password)
            && TeacherNamedIfGiven(old(db.teachers), json.value.teacherUsername).None?
            ==> r == Fail("Unable to create account")
    ensures !NoAccountInfo(json) && Truthy(json.value.username) && Truthy(json.value.password)
            && (exists s :: s in old(db.students) && old(db.students)[s].username == json.value.username.value
                       && Some(old(db.students)[s].teacher) == TeacherNamedIfGiven(old(db.teachers), json.value.teacherUsername))
            ==> r == Fail("Username already exists under another student")
    ensures !NoAccountInfo(json) && Truthy(json.value.username) && Truthy(json.value.password)
            && TeacherNamedIfGiven(old(db.teachers), json.value.teacherUsername).Some?
            && !(exists s :: s in old(db.students) && old(db.students)[s].username == json.value.username.value
                       && Some(old(db.students)[s].teacher) == TeacherNamedIfGiven(old(db.teachers), json.value.teacherUsername))
            && ((exists s :: s in old(db.students) && old(db.students)[s].username == json.value.username.value)
                || newId in old(db.students))
            ==> r == Fail("Unable to create account")
    ensures r.Ok? <==>
      && !NoAccountInfo(json) && Truthy(json.value.username) && Truthy(json.value.password)
      && TeacherNamedIfGiven(old(db.teachers), json.value.teacherUsername).Some?
      && (forall s :: s in old(db.students) ==> old(db.students)[s].username != json.value.username.value)
      && newId !in old(db.students)
    ensures r.Ok? ==>
      var f := json.value;
      var teacher := TeacherNamedIfGiven(old(db.teachers), f.teacherUsername).value;
      && db.students == old(db.students)[newId := Student(f.username.value, Hash(f.password.value), f.fname.GetOr(NoName), f.lname.GetOr(NoName), teacher)]
      && db.teachers == old(db.teachers) && db.courses == old(db.courses) && ActivitiesUnchanged(db)
      && r.value == Profile(f.username.value, newId, f.fname.GetOr(NoName), f.lname.GetOr(NoName))
  {
    if NoAccountInfo(json) {
      return Fail("No account information provided");
    }
    var form := json.value;
    if !Truthy(form.username) || !Truthy(form.password) {
      return Fail("No username or password provided");
    }
    var username, password := form.username.value, form.password.value;
    var fname, lname := form.fname.GetOr(NoName), form.lname.GetOr(NoName);
    var teacher := TeacherNamedIfGiven(db.teachers, form.teacherUsername);
    if teacher.None? {
      return Fail("Unable to create account");
    }
    var existing := StudentNamed(db.students, username);
    if existing.Some? && db.teachers[db.students[existing.value].teacher].username == form.teacherUsername.value {
      return Fail("Username already exists under another student");
    }
    // the commit violates the unique constraint on `username` or on `public_id`
    if existing.Some? || newId in db.students {
      return Fail("Unable to create account");
    }
    db.students := db.students[newId := Student(username, Hash(password), fname, lname, teacher.value)];
    r := Ok(Profile(username, newId, fname, lname));
  }

  /** `update_student_account`: as in the live routes, after refusing a falsy body; the student
      is found by the body's `username` and a new teacher is looked up by that same username. */
  method UpdateStudentAccount(db: Database, studentId: Id, json: Option<AccountForm>) returns (r: Reply<Profile>)
    requires db.Valid()
    modifies db
    ensures db.Valid()
    ensures !r.Ok? ==> unchanged(db)
    ensures NoAccountInfo(json) ==> r == Fail("No account information provided")
    ensures !NoAccountInfo(json) && json.value.username.None? ==> r == Crash(KeyError("username"))
    ensures !NoAccountInfo(json) && json.value.username.Some? && json.value.password.None? ==> r == Crash(KeyError("password"))
    ensures !NoAccountInfo(json) && json.value.username.Some? && json.value.password.Some?
            && StudentNamed(old(db.students), json.value.username.value).None?
            ==> r == Fail("Account does not exist")
    ensures r.Ok? <==>
      && !NoAccountInfo(json) && json.value.username.Some? && json.value.password.Some?
      && StudentNamed(old(db.students), json.value.username.value).Some?
      && (AsksOtherTeacher(old(db.Rows()), json.value, StudentNamed(old(db.students), json.value.username.value).value)
          ==> TeacherNamed(old(db.teachers), json.value.username.value).Some?)
      && json.value.password.value != ""
    ensures !NoAccountInfo(json) && json.value.username.Some? && json.value.password == Some("")
            && StudentNamed(old(db.students), json.value.username.value).Some?
            && (AsksOtherTeacher(old(db.Rows()), json.value, StudentNamed(old(db.students), json.value.username.value).value)
                ==> TeacherNamed(old(db.teachers), json.value.username.value).Some?)
            ==> r == Crash(ValueError)
    ensures r.Ok? ==>
      var f := json.value;
      var s := StudentNamed(old(db.students), f.username.value).value;
      var teacher := if AsksOtherTeacher(old(db.Rows()), f, s)
                     then TeacherNamed(old(db.teachers), f.username.value)
                     else Some(old(db.students)[s].teacher);
      && teacher.Some?
      && db.students == old(db.students)[s := Student(f.username.value, Hash(f.password.value), f.fname.GetOr(NoName), f.lname.GetOr(NoName), teacher.value)]
      && db.teachers == old(db.teachers) && db.courses == old(db.courses) && ActivitiesUnchanged(db)
      && r.value == Profile(f.username.value, s, f.fname.GetOr(NoName), f.lname.GetOr(NoName))
    ensures r.Fail? && !NoAccountInfo(json) ==> r.message == "Account does not exist"
    ensures !NoAccountInfo(json) && json.value.username.Some? && json.value.password.Some?
            && StudentNamed(old(db.students), json.value.username.value).Some?
            && AsksOtherTeacher(old(db.Rows()), json.value, StudentNamed(old(db.students), json.value.username.value).value)
            && TeacherNamed(old(db.teachers), json.value.username.value).None?
            ==> r == Fail("Account does not exist")
  {
    if NoAccountInfo(json) {
      return Fail("No account information provided");
    }
    var form := json.value;
    if form.username.None? {
      return Crash(KeyError("username"));
    }
    if form.password.None? {
      return Crash(KeyError("password"));
    }
    var username, password := form.username.value, form.password.value;
    var fname, lname := form.fname.GetOr(NoName), form.lname.GetOr(NoName);
    var student := StudentNamed(db.students, username);
    if student.None? {
      return Fail("Account does not exist");
    }
    var s := student.value;
    var teacher := db.students[s].teacher;
    if Truthy(form.teacherUsername) && form.teacherUsername.value != db.teachers[teacher].username {
      var newTeacher := TeacherNamed(db.teachers, username);
      if newTeacher.None? {
        return Fail("Account does not exist");
      }
      teacher := newTeacher.value;
    }
    if password == "" {
      return Crash(ValueError);
    }
    db.students := db.students[s := Student(username, Hash(password), fname, lname, teacher)];
    r := Ok(Profile(username, s, fname, lname));
  }

  /** `student_login`: `token` is the fresh `uuid1` the handler returns. */
  function StudentLogin(students: map<Id, Student>, json: Option<AccountForm>, token: string): (r: Reply<Login>)
    requires StudentUsernamesUnique(students)
    ensures NoAccountInfo(json) ==> r == Fail("No login credentials provided")
    ensures !NoAccountInfo(json) && !(Truthy(json.value.username) && Truthy(json.value.password))
            ==> r == Fail("No username or password provided")
    ensures r.Ok? <==>
      && !NoAccountInfo(json) && Truthy(json.value.username) && Truthy(json.value.password)
      && exists s :: s in students && students[s].username == json.value.username.value
                     && Matches(students[s].password, json.value.password.value)
    ensures r.Ok? ==>
      var s := r.value.profile.id;
      && r.value.token == token && s in students
      && r.value.profile == Profile(students[s].username, s, students[s].fname, students[s].lname)
      && students[s].username == json.value.username.value
    ensures !r.Ok? ==> r.Fail?
    ensures !NoAccountInfo(json) && Truthy(json.value.username) && Truthy(json.value.password)
            ==> match StudentNamed(students, json.value.username.value)
                case None => r == Fail("Invalid username `" + json.value.username.value + "`")
                case Some(s) => !Matches(students[s].password, json.value.password.value) ==> r == Fail("Invalid password")
  {
    if NoAccountInfo(json) then Fail("No login credentials provided")
    else
      var form := json.value;
      if !Truthy(form.username) || !Truthy(form.password) then Fail("No username or password provided")
      else
        match StudentNamed(students, form.username.value)
        case None => Fail("Invalid username `" + form.username.value + "`")
        case Some(s) =>
          if Matches(students[s].password, form.password.value) then
            Ok(Login(token, Profile(students[s].username, s, students[s].fname, students[s].lname)))
          else Fail("Invalid password")
  }
}
