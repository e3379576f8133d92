/** The relational store behind the handlers (fopd/models.py).

    Every table is a map keyed by the row's `public_id`, the identifier every route uses;
    the internal integer primary key is never visible through the interface and is not
    modelled. Keying by `public_id` makes that column unique by construction. */
module Models {
  import opened Basics

  type Id = string

  /** A bcrypt digest. The salt is not modelled: a digest remembers only the password it
      was computed from, which is all `check_password_hash` depends on. */
  datatype PasswordHash = Bcrypt(secret: string)

  /** `generate_password_hash` raises `ValueError` on an empty password, so every handler
      reaches it only after its own check (`Basics.ValueError`). */
  function Hash(password: string): PasswordHash
    requires password != ""
  {
    Bcrypt(password)
  }

  predicate Matches(h: PasswordHash, password: string) {
    h.secret == password
  }

  datatype Teacher = Teacher(username: string, password: PasswordHash, fname: string, lname: string)

  /** `teacher` is the non-null foreign key `teacher_id`. The optional `course_id` is not a
      field here: it is the back-reference of `Course.students`, so a student's course is
      the course whose roster lists it (see `OneCoursePerStudent`). */
  datatype Student = Student(username: string, password: PasswordHash, fname: string, lname: string, teacher: Id)

  /** `students` is the ORM list `Course.students`, in the order the handler built it. */
  datatype Course = Course(name: string, teacher: Id, students: seq<Id>)

  /** The three records below are used by the blueprint handlers, but their mappings are not
      part of fopd/models.py; they carry only the columns the handlers read and write. */
  datatype Experiment = Experiment(title: string, description: string, plant: string,
                                   startDate: string, teacher: Id, students: seq<Id>)

  datatype Assignment = Assignment(title: string, description: string, kind: string,
                                   dueDate: string, teacher: Id, students: seq<Id>)

  datatype AssignmentResponse = AssignmentResponse(assignment: Id, student: Id, response: Option<string>,
                                                   submitted: Option<string>, comments: Option<string>)

  /** The three tables that fopd/models.py declares. */
  datatype Tables = Tables(teachers: map<Id, Teacher>, students: map<Id, Student>, courses: map<Id, Course>)

  /** `Teacher.username` is declared `unique = True`. */
  ghost predicate TeacherUsernamesUnique(teachers: map<Id, Teacher>) {
    forall a, b :: a in teachers && b in teachers && teachers[a].username == teachers[b].username ==> a == b
  }

  /** `Student.username` is declared `unique = True` over the whole table, not per teacher. */
  ghost predicate StudentUsernamesUnique(students: map<Id, Student>) {
    forall a, b :: a in students && b in students && students[a].username == students[b].username ==> a == b
  }

  /** `Student.teacher_id` is a non-null foreign key. */
  ghost predicate StudentsHaveTeachers(r: Tables) {
    forall s :: s in r.students ==> r.students[s].teacher in r.teachers
  }

  /** `Course.teacher_id` is a non-null foreign key. */
  ghost predicate CoursesHaveTeachers(r: Tables) {
    forall c :: c in r.courses ==> r.courses[c].teacher in r.teachers
  }

  /** Every student on a roster is a row of the student table. */
  ghost predicate RostersExist(r: Tables) {
    forall c, s :: c in r.courses && s in r.courses[c].students ==> s in r.students
  }

  /** `Student.course_id` is a single nullable column: a student is on at most one roster. */
  ghost predicate OneCoursePerStudent(r: Tables) {
    forall c, d, s :: c in r.courses && d in r.courses && s in r.courses[c].students && s in r.courses[d].students ==> c == d
  }

  ghost predicate Consistent(r: Tables) {
    && TeacherUsernamesUnique(r.teachers)
    && StudentUsernamesUnique(r.students)
    && StudentsHaveTeachers(r)
    && CoursesHaveTeachers(r)
    && RostersExist(r)
    && OneCoursePerStudent(r)
  }

  /** `Teacher.query.filter_by(username = username).first()`. */
  function TeacherNamed(teachers: map<Id, Teacher>, username: string): (found: Option<Id>)
    requires TeacherUsernamesUnique(teachers)
    ensures found.Some? ==> found.value in teachers && teachers[found.value].username == username
    ensures found.None? <==> forall t :: t in teachers ==> teachers[t].username != username
  {
    if exists t :: t in teachers && teachers[t].username == username then
      var t :| t in teachers && teachers[t].username == username; Some(t)
    else None
  }

  /** `Student.query.filter_by(username = username).first()`. */
  function StudentNamed(students: map<Id, Student>, username: string): (found: Option<Id>)
    requires StudentUsernamesUnique(students)
    ensures found.Some? ==> found.value in students && students[found.value].username == username
    ensures found.None? <==> forall s :: s in students ==> students[s].username != username
  {
    if exists s :: s in students && students[s].username == username then
      var s :| s in students && students[s].username == username; Some(s)
    else None
  }

  /** A lookup by a JSON field that may be absent: `filter_by(username = None)` matches no row,
      because `username` is a non-null column. */
  function TeacherNamedIfGiven(teachers: map<Id, Teacher>, username: Option<string>): (found: Option<Id>)
    requires TeacherUsernamesUnique(teachers)
    ensures found.Some? <==> username.Some? && exists t :: t in teachers && teachers[t].username == username.value
    ensures found.Some? ==> found.value in teachers && teachers[found.value].username == username.value
  {
    if username.None? then None else TeacherNamed(teachers, username.value)
  }

  /** The database session: the handlers read and assign these tables in place. */
  class Database {
    var teachers: map<Id, Teacher>
    var students: map<Id, Student>
    var courses: map<Id, Course>
    var experiments: map<Id, Experiment>
    var assignments: map<Id, Assignment>
    var responses: map<Id, AssignmentResponse>

    function Rows(): Tables
      reads this
    {
      Tables(teachers, students, courses)
    }

    ghost predicate Valid()
      reads this
    {
      Consistent(Rows())
    }

    /** The commit of new contents for the three declared tables; the other tables stay. */
    method Store(next: Tables)
      requires Consistent(next)
      modifies this
      ensures Valid() && Rows() == next
      ensures experiments == old(experiments) && assignments == old(assignments) && responses == old(responses)
    {
      teachers, students, courses := next.teachers, next.students, next.courses;
    }

    /** `db.create_all()` on an empty database. */
    constructor ()
      ensures Valid()
      ensures teachers == map[] && students == map[] && courses == map[]
      ensures experiments == map[] && assignments == map[] && responses == map[]
    {
      teachers, students, courses := map[], map[], map[];
      experiments, assignments, responses := map[], map[], map[];
    }
  }

  /** The handlers of the account and course routes leave the experiment, assignment and
      response tables as they were. */
  twostate predicate ActivitiesUnchanged(db: Database)
    reads db
  {
    db.experiments == old(db.experiments) && db.assignments == old(db.assignments) && db.responses == old(db.responses)
  }
}
