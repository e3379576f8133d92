/** The teacher blueprint (fopd/teachers/routes.py). Unlike the live routes it refuses a falsy
    body first, reads `username` and `password` with a default of `''` when registering and
    logging in, and its login returns a fresh token with the teacher's profile. Its
    `delete_teacher_account` is the live handler `LiveRoutes.DeleteTeacherAccount`. */
module Teachers {
  import opened Basics
  import opened Models
  import opened Api

  /** `update_teacher_account`: a full overwrite once a body is given and the teacher exists. */
  method UpdateTeacherAccount(db: Database, teacherId: Id, json: Option<AccountForm>) returns (r: Reply<Profile>)
    requires db.Valid()
    modifies db
    ensures db.Valid()
    ensures !r.Ok? ==> unchanged(db)
    ensures NoAccountInfo(json) ==> r == Fail("No account information provided")
    ensures !NoAccountInfo(json) && json.value.username.None? ==> r == Crash(KeyError("username"))
    ensures !NoAccountInfo(json) && json.value.username.Some? && json.value.password.None? ==> r == Crash(KeyError("password"))
    ensures !NoAccountInfo(json) && json.value.username.Some? && json.value.password.Some? && teacherId !in old(db.teachers)
            ==> r == Fail("Account does not exist")
    ensures r.Ok? <==>
      && !NoAccountInfo(json) && json.value.username.Some? && json.value.password.Some?
      && teacherId in old(db.teachers) && json.value.password.value != ""
      && (forall t :: t in old(db.teachers) && old(db.teachers)[t].username == json.value.username.value ==> t == teacherId)
    ensures !NoAccountInfo(json) && json.value.username.Some? && json.value.password == Some("") && teacherId in old(db.teachers)
            ==> r == Crash(ValueError)
    ensures !NoAccountInfo(json) && json.value.username.Some? && json.value.password.Some? && json.value.password.value != ""
            && teacherId in old(db.teachers)
            && (exists t :: t in old(db.teachers) && t != teacherId && old(db.teachers)[t].username == json.value.username.value)
            ==> r == Fail("Unable to update account")
    ensures r.Ok? ==>
      var f := json.value;
      && db.teachers == old(db.teachers)[teacherId := Teacher(f.username.value, Hash(f.password.value), f.fname.GetOr(NoName), f.lname.GetOr(NoName))]
      && db.students == old(db.students) && db.courses == old(db.courses) && ActivitiesUnchanged(db)
      && r.value == Profile(f.username.value, teacherId, f.fname.GetOr(NoName), f.lname.GetOr(NoName))
  {
    if NoAccountInfo(json) {
      return Fail("No account information provided");
    }
    var form := json.value;
    if form.username.None? {
      return Crash(KeyError("username"));
    }
    if form.password.None? {
      return Crash(KeyError("password"));
    }
    var username, password := form.username.value, form.password.value;
    var fname, lname := form.fname.GetOr(NoName), form.lname.GetOr(NoName);
    if teacherId !in db.teachers {
      return Fail("Account does not exist");
    }
    if password == "" {
      return Crash(ValueError);
    }
    // the commit violates the unique constraint on `username`
    var holder := TeacherNamed(db.teachers, username);
    if holder.Some? && holder.value != teacherId {
      return Fail("Unable to update account");
    }
    db.teachers := db.teachers[teacherId := Teacher(username, Hash(password), fname, lname)];
    r := Ok(Profile(username, teacherId, fname, lname));
  }

  /** `register_teacher_account`: needs a body with a non-empty username and password, and a
      username no teacher has. */
  method RegisterTeacherAccount(db: Database, json: Option<AccountForm>, newId: Id) returns (r: Reply<Profile>)
    requires db.Valid()
    modifies db
    ensures db.Valid()
    ensures !r.Ok? ==> unchanged(db)
    ensures NoAccountInfo(json) ==> r == Fail("No account information provided")
    ensures !NoAccountInfo(json) && !(Truthy(json.value.username) && Truthy(json.value.password))
            ==> r == Fail("No username or password provided")
    ensures !NoAccountInfo(json) && Truthy(json.value.username) && Truthy(json.value.password)
            && TeacherNamed(old(db.teachers), json.value.username.value).Some?
            ==> r == Fail("Username already exists!")
    ensures !NoAccountInfo(json) && Truthy(json.value.username) && Truthy(json.value.password)
            && TeacherNamed(old(db.teachers), json.value.username.value).None? && newId in old(db.teachers)
            ==> r == Fail("Unable to create account")
    ensures r.Ok? <==>
      && !NoAccountInfo(json) && Truthy(json.value.username) && Truthy(json.value.password)
      && TeacherNamed(old(db.teachers), json.value.username.value).None?
      && newId !in old(db.teachers)
    ensures r.Ok? ==>
      var f := json.value;
      && db.teachers == old(db.teachers)[newId := Teacher(f.username.value, Hash(f.password.value), f.fname.GetOr(NoName), f.lname.GetOr(NoName))]
      && db.students == old(db.students) && db.courses == old(db.courses) && ActivitiesUnchanged(db)
      && r.value == Profile(f.username.value, newId, f.fname.GetOr(NoName), f.lname.GetOr(NoName))
  {
    if NoAccountInfo(json) {
      return Fail("No account information provided");
    }
    var form := json.value;
    if !Truthy(form.username) || !Truthy(form.password) {
      return Fail("No username or password provided");
    }
    var username, password := form.username.value, form.password.value;
    var fname, lname := form.fname.GetOr(NoName), form.lname.GetOr(NoName);
    if TeacherNamed(db.teachers, username).Some? {
      return Fail("Username already exists!");
    }
    // the commit violates the unique constraint on `public_id`
    if newId in db.teachers {
      return Fail("Unable to create account");
    }
    db.teachers := db.teachers[newId := Teacher(username, Hash(password), fname, lname)];
    r := Ok(Profile(username, newId, fname, lname));
  }

  /** `teacher_login`: `token` is the fresh `uuid1` the handler returns. */
  function TeacherLogin(teachers: map<Id, Teacher>, json: Option<AccountForm>, token: string): (r: Reply<Login>)
    requires TeacherUsernamesUnique(teachers)
    ensures NoAccountInfo(json) ==> r == Fail("No login credentials provided")
    ensures !NoAccountInfo(json) && !(Truthy(json.value.username) && Truthy(json.value.password))
            ==> r == Fail("No username or password provided")
    ensures r.Ok? <==>
      && !NoAccountInfo(json) && Truthy(json.value.username) && Truthy(json.value.password)
      && exists t :: t in teachers && teachers[t].username == json.value.username.value
                     && Matches(teachers[t].password, json.value.password.value)
    ensures r.Ok? ==>
      var t := r.value.profile.id;
      && r.value.token == token && t in teachers
      && r.value.profile == Profile(teachers[t].username, t, teachers[t].fname, teachers[t].lname)
      && teachers[t].username == json.value.username.value
    ensures !r.Ok? ==> r.Fail?
    ensures !NoAccountInfo(json) && Truthy(json.value.username) && Truthy(json.value.password)
            ==> match TeacherNamed(teachers, json.value.username.value)
                case None => r == Fail("Invalid username `" + json.value.username.value + "`")
                case Some(t) => !Matches(teachers[t].password, json.value.password.value) ==> r == Fail("Invalid password")
  {
    if NoAccountInfo(json) then Fail("No login credentials provided")
    else
      var form := json.value;
      if !Truthy(form.username) || !Truthy(form.password) then Fail("No username or password provided")
      else
        match TeacherNamed(teachers, form.username.value)
        case None => Fail("Invalid username `" + form.username.value + "`")
        case Some(t) =>
          if Matches(teachers[t].password, form.password.value) then
            Ok(Login(token, Profile(teachers[t].username, t, teachers[t].fname, teachers[t].lname)))
          else Fail("Invalid password")
  }
}
